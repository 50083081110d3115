/** The best-match selector: sort the histogram by score, highest first and
    stably, then walk the entries that share the top score and show each
    one whose sample differs from every sample shown before, with the
    example line repaired by it. */
module Selector {
  import opened Base
  import opened Catalog
  import opened Scorer
  import opened Text

  /** One entry of `hist.items()`: a codec and its score. */
  type Item = (string, nat)

  /** The entries for `keys`, in that order. */
  function ItemsOf(t: Tally, keys: seq<string>): seq<Item> {
    if keys == [] then [] else ItemsOf(t, DropLast(keys)) + [(Last(keys), Count(t, Last(keys)))]
  }

  /** `list(hist.items())`: the entries in insertion order. */
  function Items(t: Tally): seq<Item> {
    ItemsOf(t, t.order)
  }

  predicate Sorted(l: seq<Item>) {
    forall i, j :: 0 <= i < j < |l| ==> l[i].1 >= l[j].1
  }

  function ScoreIs(v: int): Item -> bool {
    (y: Item) => y.1 == v
  }

  /** Put `x` into a list sorted high to low, after every entry that scores
      more than `x` and before the others. */
  function Insert(x: Item, l: seq<Item>): seq<Item> {
    if l == [] || l[0].1 <= x.1 then [x] + l else [l[0]] + Insert(x, l[1..])
  }

  /** `sorted(items, key=lambda x: x[1], reverse=True)`: an insertion sort,
      which like Python's sort is stable. */
  function SortByScore(s: seq<Item>): seq<Item> {
    if s == [] then [] else Insert(s[0], SortByScore(s[1..]))
  }

  lemma InsertHead(x: Item, l: seq<Item>)
    ensures Insert(x, l) != [] && Insert(x, l)[0] == if l == [] || l[0].1 <= x.1 then x else l[0]
  {
  }

  lemma {:induction false} InsertSorted(x: Item, l: seq<Item>)
    requires Sorted(l)
    ensures Sorted(Insert(x, l))
    decreases |l|
  {
    if l != [] && l[0].1 > x.1 {
      InsertSorted(x, l[1..]);
      InsertHead(x, l[1..]);
    }
  }

  lemma {:induction false} InsertPermutes(x: Item, l: seq<Item>)
    ensures multiset(Insert(x, l)) == multiset(l) + multiset{x}
    decreases |l|
  {
    if l != [] && l[0].1 > x.1 {
      InsertPermutes(x, l[1..]);
      assert l == [l[0]] + l[1..];
    }
  }

  /** Among the entries of one score, `x` lands in front of those of `l`. */
  lemma {:induction false} InsertFilter(x: Item, l: seq<Item>, v: int)
    ensures Filter(Insert(x, l), ScoreIs(v)) == (if x.1 == v then [x] else []) + Filter(l, ScoreIs(v))
    decreases |l|
  {
    var p := ScoreIs(v);
    if l == [] || l[0].1 <= x.1 {
      assert Insert(x, l) == [x] + l;
      FilterCons(x, l, p);
    } else {
      var h := l[0];
      assert Insert(x, l) == [h] + Insert(x, l[1..]);
      assert l == [h] + l[1..];
      InsertFilter(x, l[1..], v);
      FilterCons(h, Insert(x, l[1..]), p);
      FilterCons(h, l[1..], p);
      // x scores below h, so at most one of them has the score v
      SwapDisjoint(if h.1 == v then [h] else [], if x.1 == v then [x] else [], Filter(l[1..], p));
    }
  }

  /** Two parts of which one is empty can be swapped. */
  lemma SwapDisjoint(a: seq<Item>, b: seq<Item>, c: seq<Item>)
    requires a == [] || b == []
    ensures a + (b + c) == b + (a + c)
  {
  }

  /** The sort: high to low, a permutation of the entries, and stable, since
      the entries of any one score keep their relative order. */
  lemma {:induction false} SortFacts(s: seq<Item>)
    ensures Sorted(SortByScore(s))
    ensures multiset(SortByScore(s)) == multiset(s)
    ensures forall v :: Filter(SortByScore(s), ScoreIs(v)) == Filter(s, ScoreIs(v))
    decreases |s|
  {
    if s != [] {
      SortFacts(s[1..]);
      assert s == [s[0]] + s[1..];
      forall v ensures Filter(SortByScore(s), ScoreIs(v)) == Filter(s, ScoreIs(v)) {
        InsertFilter(s[0], SortByScore(s[1..]), v);
        FilterAppend([s[0]], s[1..], ScoreIs(v));
        FilterSingle(s[0], ScoreIs(v));
      }
      InsertSorted(s[0], SortByScore(s[1..]));
      InsertPermutes(s[0], SortByScore(s[1..]));
    }
  }

  // ----- The top score -----

  /** The largest count among `keys`, 0 for none. */
  function MaxOver(t: Tally, keys: seq<string>): nat {
    if keys == [] then 0
    else var m := MaxOver(t, DropLast(keys));
         if Count(t, Last(keys)) > m then Count(t, Last(keys)) else m
  }

  /** The highest score in the histogram. */
  function MaxCount(t: Tally): nat {
    MaxOver(t, t.order)
  }

  lemma {:induction false} MaxOverBound(t: Tally, keys: seq<string>, e: string)
    requires e in keys
    ensures Count(t, e) <= MaxOver(t, keys)
    decreases |keys|
  {
    assert keys == DropLast(keys) + [Last(keys)];
    if e != Last(keys) {
      MaxOverBound(t, DropLast(keys), e);
    }
  }

  lemma {:induction false} MaxOverReached(t: Tally, keys: seq<string>) returns (i: nat)
    requires keys != []
    ensures i < |keys| && Count(t, keys[i]) == MaxOver(t, keys)
    decreases |keys|
  {
    var init := DropLast(keys);
    if init == [] || Count(t, Last(keys)) > MaxOver(t, init) {
      i := |keys| - 1;
    } else {
      i := MaxOverReached(t, init);
      assert keys[i] == init[i];
    }
  }

  function HasCount(t: Tally, m: nat): string -> bool {
    (e: string) => Count(t, e) == m
  }

  /** The codecs that reach the top score, in insertion order. */
  function TopGroup(t: Tally): seq<string> {
    Filter(t.order, HasCount(t, MaxCount(t)))
  }

  lemma {:induction false} ItemsOfShape(t: Tally, keys: seq<string>)
    ensures |ItemsOf(t, keys)| == |keys|
    ensures forall k :: 0 <= k < |keys| ==> ItemsOf(t, keys)[k] == (keys[k], Count(t, keys[k]))
    decreases |keys|
  {
    if keys != [] {
      ItemsOfShape(t, DropLast(keys));
    }
  }

  /** The entries scoring `m` are the entries of the codecs counted `m`. */
  lemma {:induction false} ItemsOfFilter(t: Tally, keys: seq<string>, m: nat)
    ensures Filter(ItemsOf(t, keys), ScoreIs(m)) == ItemsOf(t, Filter(keys, HasCount(t, m)))
    decreases |keys|
  {
    if keys != [] {
      var init := DropLast(keys);
      ItemsOfFilter(t, init, m);
      var f := Filter(init, HasCount(t, m));
      if Count(t, Last(keys)) == m {
        assert DropLast(f + [Last(keys)]) == f;
      } else {
        assert Filter(keys, HasCount(t, m)) == f;
      }
    }
  }

  /** In a list sorted high to low that starts with its largest score `m`,
      the entries scoring `m` are exactly a prefix, and the entry after it
      scores less. */
  lemma {:induction false} SortedTopPrefix(l: seq<Item>, m: int)
    requires Sorted(l) && l != [] && l[0].1 == m
    ensures var k := |Filter(l, ScoreIs(m))|;
      k <= |l| && Filter(l, ScoreIs(m)) == l[..k] && (k < |l| ==> l[k].1 < m)
    decreases |l|
  {
    var init := DropLast(l);
    var x := Last(l);
    if x.1 == m {
      assert forall i :: 0 <= i < |l| ==> l[i].1 == m;
      AllScore(l, m);
      assert l[..|l|] == l;
    } else {
      assert Filter(l, ScoreIs(m)) == Filter(init, ScoreIs(m));
      assert init != [] && init[0] == l[0];
      assert Sorted(init);
      SortedTopPrefix(init, m);
      var k := |Filter(init, ScoreIs(m))|;
      assert init[..k] == l[..k];
    }
  }

  lemma {:induction false} AllScore(l: seq<Item>, m: int)
    requires forall i :: 0 <= i < |l| ==> l[i].1 == m
    ensures Filter(l, ScoreIs(m)) == l
    decreases |l|
  {
    if l != [] {
      AllScore(DropLast(l), m);
      assert DropLast(l) + [Last(l)] == l;
    }
  }

  /** The sorted histogram starts with the top-scoring codecs, in insertion
      order and each with the top score, and whatever follows them scores
      less. */
  lemma BestPrefix(t: Tally)
    requires t.order != []
    ensures var best := SortByScore(Items(t)); var g := TopGroup(t);
      && |g| >= 1 && |g| <= |best| && best[0].1 == MaxCount(t)
      && best[..|g|] == ItemsOf(t, g)
      && (|g| < |best| ==> best[|g|].1 < MaxCount(t))
  {
    var best := SortByScore(Items(t));
    var m := MaxCount(t);
    var g := TopGroup(t);
    BestHead(t);
    SortedTopPrefix(best, m);
    ItemsOfFilter(t, t.order, m);
    ItemsOfShape(t, g);
    var j := MaxOverReached(t, t.order);
    FilterMembers(t.order, HasCount(t, m), t.order[j]);
  }

  /** The sorted histogram is sorted, starts with the top score, and keeps
      the order of the entries of that score. */
  lemma BestHead(t: Tally)
    requires t.order != []
    ensures var best := SortByScore(Items(t)); var m := MaxCount(t);
      && Sorted(best) && best != [] && best[0].1 == m
      && Filter(best, ScoreIs(m)) == Filter(Items(t), ScoreIs(m))
  {
    var items := Items(t);
    var best := SortByScore(items);
    var m := MaxCount(t);
    SortFacts(items);
    ItemsOfShape(t, t.order);
    assert |best| == |items| by {
      assert |multiset(best)| == |multiset(items)|;
    }
    // best[0] is one of the entries, so it scores at most m.
    assert best[0] in multiset(items);
    var i0 :| 0 <= i0 < |items| && items[i0] == best[0];
    MaxOverBound(t, t.order, t.order[i0]);
    // Some entry scores m, and best[0] scores at least as much as it.
    var j := MaxOverReached(t, t.order);
    assert items[j] in multiset(best);
    var k :| 0 <= k < |best| && best[k] == items[j];
    assert best[0].1 >= best[k].1;
  }

  // ----- The walk over the sorted entries -----

  /** One line of the selector's output: the codec, the example line, and
      the example line repaired by the codec. */
  datatype Pick = Pick(enc: string, before: string, after: string)

  function PickedEncs(picks: seq<Pick>): seq<string> {
    seq(|picks|, k requires 0 <= k < |picks| => picks[k].enc)
  }

  /** The state of the selector's loop: still walking (with the list `seen`
      of samples shown), stopped by `break` at a lower score, or crashed
      because the example could not be repaired. */
  datatype Walk =
    | Walking(seen: seq<string>, picks: seq<Pick>)
    | Stopped(picks: seq<Pick>)
    | Crashed(picks: seq<Pick>, enc: string)

  /** One iteration of the selector's loop. The sample goes into `seen`
      before the example is repaired, as in the loop. */
  function Step(lib: Codecs, t: Tally, example: string, top: nat, w: Walk, item: Item): Walk {
    match w
    case Walking(seen, picks) =>
      if item.1 != top then Stopped(picks)
      else if Sample(t, item.0) in seen then w
      else (match Recode(lib, item.0, example)
            case None => Crashed(picks, item.0)
            case Some(fixed) => Walking(seen + [Sample(t, item.0)], picks + [Pick(item.0, example, fixed)]))
    case Stopped(_) => w
    case Crashed(_, _) => w
  }

  function WalkOver(lib: Codecs, t: Tally, example: string, top: nat, items: seq<Item>): Walk {
    if items == [] then Walking([], [])
    else Step(lib, t, example, top, WalkOver(lib, t, example, top, DropLast(items)), Last(items))
  }

  /** What the selector reports: the lines it shows, or the lines shown
      before the program stopped with an exception. */
  datatype Failure = NoScores | Unrepairable(enc: string)
  datatype Selection = Shown(picks: seq<Pick>) | Failed(picks: seq<Pick>, failure: Failure)

  /** The selector's outcome. An empty histogram makes `best[0]` raise
      `IndexError`; an example the chosen codec cannot repair raises too. */
  function Select(lib: Codecs, t: Tally, example: string): Selection {
    var best := SortByScore(Items(t));
    if best == [] then Failed([], NoScores)
    else match WalkOver(lib, t, example, best[0].1, best)
         case Crashed(picks, e) => Failed(picks, Unrepairable(e))
         case Walking(_, picks) => Shown(picks)
         case Stopped(picks) => Shown(picks)
  }

  /** Once the walk has stopped or crashed, the remaining entries change
      nothing. */
  lemma {:induction false} WalkSettled(lib: Codecs, t: Tally, example: string, top: nat, items: seq<Item>, i: nat)
    requires i <= |items| && !WalkOver(lib, t, example, top, items[..i]).Walking?
    ensures WalkOver(lib, t, example, top, items) == WalkOver(lib, t, example, top, items[..i])
    decreases |items| - i
  {
    if i < |items| {
      assert DropLast(items[..i + 1]) == items[..i];
      WalkSettled(lib, t, example, top, items, i + 1);
    } else {
      assert items[..i] == items;
    }
  }

  /** The selector's loop, with `seen`, the `break` at the first lower score
      and the repair of the example. */
  method SelectBest(lib: Codecs, t: Tally, example: string) returns (sel: Selection)
    ensures sel == Select(lib, t, example)
  {
    var best := SortByScore(Items(t));
    if |best| == 0 {
      return Failed([], NoScores);
    }
    var bestScore := best[0].1;
    var seen: seq<string> := [];
    var picks: seq<Pick> := [];
    var i := 0;
    while i < |best|
      invariant 0 <= i <= |best|
      invariant WalkOver(lib, t, example, bestScore, best[..i]) == Walking(seen, picks)
    {
      assert DropLast(best[..i + 1]) == best[..i];
      var (enc, score) := best[i];
      if score == bestScore {
        if Sample(t, enc) !in seen {
          seen := seen + [Sample(t, enc)];
          var fixed := Recode(lib, enc, example);
          if fixed.None? {
            WalkSettled(lib, t, example, bestScore, best, i + 1);
            return Failed(picks, Unrepairable(enc));
          }
          picks := picks + [Pick(enc, example, fixed.value)];
        }
      } else {
        WalkSettled(lib, t, example, bestScore, best, i + 1);
        return Shown(picks);
      }
      i := i + 1;
    }
    assert best[..|best|] == best;
    sel := Shown(picks);
  }

  // ----- What the walk over a group of equal scores shows -----

  /** Entry `i` of `g` is the first one with its sample. */
  ghost predicate FirstOfSample(t: Tally, g: seq<string>, i: int)
    requires 0 <= i < |g|
  {
    forall j :: 0 <= j < i ==> Sample(t, g[j]) != Sample(t, g[i])
  }

  /** What is shown: codecs of `g` in the order of `g`, each with a sample
      unlike every other shown, each the first of `g` with its sample, each
      with the example and its repair. */
  ghost predicate ShownFrom(lib: Codecs, t: Tally, example: string, g: seq<string>, picks: seq<Pick>) {
    && Subsequence(PickedEncs(picks), g)
    && (forall k1, k2 :: 0 <= k1 < k2 < |picks| ==> Sample(t, picks[k1].enc) != Sample(t, picks[k2].enc))
    && (forall k :: 0 <= k < |picks| ==>
          picks[k].before == example && Recode(lib, picks[k].enc, example) == Some(picks[k].after))
    && (forall i :: 0 <= i < |g| && g[i] in PickedEncs(picks) ==> FirstOfSample(t, g, i))
  }

  lemma PickedEncsAppend(picks: seq<Pick>, p: Pick)
    ensures PickedEncs(picks + [p]) == PickedEncs(picks) + [p.enc]
  {
  }

  lemma PickedEncsMembers(picks: seq<Pick>, e: string)
    ensures e in PickedEncs(picks) <==> exists k :: 0 <= k < |picks| && picks[k].enc == e
  {
    if e in PickedEncs(picks) {
      var k :| 0 <= k < |picks| && PickedEncs(picks)[k] == e;
    }
    if exists k :: 0 <= k < |picks| && picks[k].enc == e {
      var k :| 0 <= k < |picks| && picks[k].enc == e;
      assert PickedEncs(picks)[k] == e;
    }
  }

  /** While walking: `seen` lists the samples of the shown codecs, in order,
      and holds the sample of every entry so far; a codec has been shown
      exactly when it is the first of `g` with its sample. */
  ghost predicate WalkingInv(t: Tally, g: seq<string>, seen: seq<string>, picks: seq<Pick>) {
    && |seen| == |picks|
    && (forall k :: 0 <= k < |picks| ==> seen[k] == Sample(t, picks[k].enc))
    && (forall i :: 0 <= i < |g| ==> Sample(t, g[i]) in seen)
    && (forall i :: 0 <= i < |g| ==> (g[i] in PickedEncs(picks) <==> FirstOfSample(t, g, i)))
  }

  /** A crash at entry `c` of `g`: `enc` is that entry, the first of `g` with
      its sample, and cannot repair the example; every entry before it was
      shown exactly when it was the first with its sample, and nothing from
      `c` on was shown. */
  ghost predicate CrashedAt(lib: Codecs, t: Tally, example: string, g: seq<string>,
                            picks: seq<Pick>, enc: string, c: int) {
    && 0 <= c < |g| && g[c] == enc && FirstOfSample(t, g, c)
    && Recode(lib, enc, example).None?
    && (forall i :: 0 <= i < c ==> (g[i] in PickedEncs(picks) <==> FirstOfSample(t, g, i)))
    && (forall i :: c <= i < |g| ==> g[i] !in PickedEncs(picks))
  }

  /** The walk over a group of top-scoring codecs `g` never stops; a crash
      happens at the first codec of `g` with a new sample whose repair of the
      example fails, after the codecs before it were shown. */
  ghost predicate GroupInv(lib: Codecs, t: Tally, example: string, g: seq<string>, w: Walk) {
    && !w.Stopped?
    && ShownFrom(lib, t, example, g, w.picks)
    && (w.Walking? ==> WalkingInv(t, g, w.seen, w.picks))
    && (w.Crashed? ==> exists c :: CrashedAt(lib, t, example, g, w.picks, w.enc, c))
  }

  lemma FirstOfSampleExtend(t: Tally, g: seq<string>, x: string, i: nat)
    requires i < |g|
    ensures FirstOfSample(t, g + [x], i) == FirstOfSample(t, g, i)
  {
    assert forall j :: 0 <= j <= i ==> (g + [x])[j] == g[j];
  }

  /** An entry that shows nothing keeps what was shown valid for the longer
      group. */
  lemma ShownExtend(lib: Codecs, t: Tally, example: string, g: seq<string>, x: string, picks: seq<Pick>)
    requires x !in g && ShownFrom(lib, t, example, g, picks)
    ensures ShownFrom(lib, t, example, g + [x], picks)
  {
    SubsequenceExtend(PickedEncs(picks), g, x);
    forall i | 0 <= i < |g + [x]| && (g + [x])[i] in PickedEncs(picks)
      ensures FirstOfSample(t, g + [x], i)
    {
      if i == |g| {
        SubsequenceMembers(PickedEncs(picks), g, x);
      } else {
        FirstOfSampleExtend(t, g, x, i);
      }
    }
  }

  /** An entry whose sample was already seen is skipped. */
  lemma WalkSkip(lib: Codecs, t: Tally, example: string, g: seq<string>, x: string,
                 seen: seq<string>, picks: seq<Pick>)
    requires x !in g && GroupInv(lib, t, example, g, Walking(seen, picks))
    requires Sample(t, x) in seen
    ensures GroupInv(lib, t, example, g + [x], Walking(seen, picks))
  {
    ShownExtend(lib, t, example, g, x, picks);
    var g' := g + [x];
    var k :| 0 <= k < |seen| && seen[k] == Sample(t, x);
    PickedEncsMembers(picks, picks[k].enc);
    SubsequenceMembers(PickedEncs(picks), g, picks[k].enc);
    var j :| 0 <= j < |g| && g[j] == picks[k].enc;
    assert g'[j] == g[j];
    assert !FirstOfSample(t, g', |g|);
    forall i | 0 <= i < |g'|
      ensures Sample(t, g'[i]) in seen
      ensures g'[i] in PickedEncs(picks) <==> FirstOfSample(t, g', i)
    {
      if i < |g| {
        FirstOfSampleExtend(t, g, x, i);
      }
    }
  }

  /** An entry with a new sample and a repairable example is shown. */
  lemma WalkShow(lib: Codecs, t: Tally, example: string, g: seq<string>, x: string,
                 seen: seq<string>, picks: seq<Pick>, fixed: string)
    requires x !in g && GroupInv(lib, t, example, g, Walking(seen, picks))
    requires Sample(t, x) !in seen && Recode(lib, x, example) == Some(fixed)
    ensures GroupInv(lib, t, example, g + [x], Walking(seen + [Sample(t, x)], picks + [Pick(x, example, fixed)]))
  {
    var p := Pick(x, example, fixed);
    PickedEncsAppend(picks, p);
    ShowKeepsShown(lib, t, example, g, x, seen, picks, p);
    ShowKeepsWalking(t, g, x, seen, picks, p);
  }

  /** Showing `x` keeps what is shown valid. */
  lemma ShowKeepsShown(lib: Codecs, t: Tally, example: string, g: seq<string>, x: string,
                       seen: seq<string>, picks: seq<Pick>, p: Pick)
    requires x !in g && ShownFrom(lib, t, example, g, picks) && WalkingInv(t, g, seen, picks)
    requires Sample(t, x) !in seen && p.enc == x && p.before == example && Recode(lib, x, example) == Some(p.after)
    requires PickedEncs(picks + [p]) == PickedEncs(picks) + [x]
    ensures ShownFrom(lib, t, example, g + [x], picks + [p])
  {
    var g' := g + [x];
    var picks' := picks + [p];
    assert DropLast(PickedEncs(picks')) == PickedEncs(picks);
    assert DropLast(g') == g;
    assert Subsequence(PickedEncs(picks'), g');
    forall k1, k2 | 0 <= k1 < k2 < |picks'|
      ensures Sample(t, picks'[k1].enc) != Sample(t, picks'[k2].enc)
    {
      if k2 == |picks| {
        assert seen[k1] == Sample(t, picks[k1].enc);
      }
    }
    forall i | 0 <= i < |g'| && g'[i] in PickedEncs(picks')
      ensures FirstOfSample(t, g', i)
    {
      if i < |g| {
        FirstOfSampleExtend(t, g, x, i);
      } else {
        FirstOfNewSample(t, g, x, seen);
      }
    }
  }

  /** An entry whose sample nobody before it had is the first of it. */
  lemma FirstOfNewSample(t: Tally, g: seq<string>, x: string, seen: seq<string>)
    requires forall i :: 0 <= i < |g| ==> Sample(t, g[i]) in seen
    requires Sample(t, x) !in seen
    ensures FirstOfSample(t, g + [x], |g|)
  {
    forall j | 0 <= j < |g| ensures Sample(t, (g + [x])[j]) != Sample(t, x) {
      assert (g + [x])[j] == g[j];
    }
  }

  /** Showing `x` keeps the walking invariant. */
  lemma ShowKeepsWalking(t: Tally, g: seq<string>, x: string, seen: seq<string>, picks: seq<Pick>, p: Pick)
    requires x !in g && WalkingInv(t, g, seen, picks)
    requires Sample(t, x) !in seen && p.enc == x
    requires PickedEncs(picks + [p]) == PickedEncs(picks) + [x]
    ensures WalkingInv(t, g + [x], seen + [Sample(t, x)], picks + [p])
  {
    var g' := g + [x];
    var picks' := picks + [p];
    var seen' := seen + [Sample(t, x)];
    FirstOfNewSample(t, g, x, seen);
    forall i | 0 <= i < |g'|
      ensures Sample(t, g'[i]) in seen'
      ensures g'[i] in PickedEncs(picks') <==> FirstOfSample(t, g', i)
    {
      if i < |g| {
        FirstOfSampleExtend(t, g, x, i);
        assert g'[i] == g[i] != x;
      }
    }
  }

  /** The walk over entries that all have the top score, for distinct codecs
      `g`, keeps the group invariant. */
  lemma {:induction false} WalkGroup(lib: Codecs, t: Tally, example: string, top: nat, g: seq<string>)
    requires Distinct(g)
    requires forall k :: 0 <= k < |g| ==> Count(t, g[k]) == top
    ensures GroupInv(lib, t, example, g, WalkOver(lib, t, example, top, ItemsOf(t, g)))
    decreases |g|
  {
    if g != [] {
      var init := DropLast(g);
      var x := Last(g);
      assert g == init + [x];
      assert forall k :: 0 <= k < |init| ==> init[k] == g[k];
      WalkGroup(lib, t, example, top, init);
      assert x !in init;
      var w := WalkOver(lib, t, example, top, ItemsOf(t, init));
      assert WalkOver(lib, t, example, top, ItemsOf(t, g)) == Step(lib, t, example, top, w, (x, top));
      StepGroup(lib, t, example, top, init, x, w);
    }
  }

  /** One step of the walk over a top-scoring codec keeps the group
      invariant. */
  lemma StepGroup(lib: Codecs, t: Tally, example: string, top: nat, g: seq<string>, x: string, w: Walk)
    requires x !in g && GroupInv(lib, t, example, g, w)
    ensures GroupInv(lib, t, example, g + [x], Step(lib, t, example, top, w, (x, top)))
  {
    match w
    case Walking(seen, picks) =>
      if Sample(t, x) in seen {
        WalkSkip(lib, t, example, g, x, seen, picks);
      } else if Recode(lib, x, example).Some? {
        WalkShow(lib, t, example, g, x, seen, picks, Recode(lib, x, example).value);
      } else {
        ShownExtend(lib, t, example, g, x, picks);
        CrashHere(lib, t, example, g, x, seen, picks);
      }
    case Crashed(picks, e) =>
      ShownExtend(lib, t, example, g, x, picks);
      var c :| CrashedAt(lib, t, example, g, picks, e, c);
      CrashExtend(lib, t, example, g, x, picks, e, c);
  }

  /** A walk that crashes at `x` crashes at the last entry of `g + [x]`. */
  lemma CrashHere(lib: Codecs, t: Tally, example: string, g: seq<string>, x: string,
                  seen: seq<string>, picks: seq<Pick>)
    requires x !in g && ShownFrom(lib, t, example, g, picks) && WalkingInv(t, g, seen, picks)
    requires Sample(t, x) !in seen && Recode(lib, x, example).None?
    ensures CrashedAt(lib, t, example, g + [x], picks, x, |g|)
  {
    var g' := g + [x];
    FirstOfNewSample(t, g, x, seen);
    if x in PickedEncs(picks) {
      SubsequenceMembers(PickedEncs(picks), g, x);
    }
    forall i | 0 <= i < |g|
      ensures g'[i] in PickedEncs(picks) <==> FirstOfSample(t, g', i)
    {
      FirstOfSampleExtend(t, g, x, i);
    }
  }

  /** Entries after a crash are not shown and do not move it. */
  lemma CrashExtend(lib: Codecs, t: Tally, example: string, g: seq<string>, x: string,
                    picks: seq<Pick>, e: string, c: int)
    requires x !in g && Subsequence(PickedEncs(picks), g)
    requires CrashedAt(lib, t, example, g, picks, e, c)
    ensures CrashedAt(lib, t, example, g + [x], picks, e, c)
  {
    var g' := g + [x];
    if x in PickedEncs(picks) {
      SubsequenceMembers(PickedEncs(picks), g, x);
    }
    FirstOfSampleExtend(t, g, x, c);
    forall i | 0 <= i < c
      ensures g'[i] in PickedEncs(picks) <==> FirstOfSample(t, g', i)
    {
      FirstOfSampleExtend(t, g, x, i);
    }
    forall i | c <= i < |g'| ensures g'[i] !in PickedEncs(picks) {
      if i < |g| {
        assert g'[i] == g[i];
      }
    }
  }

  // ----- What the selector shows -----

  /** No codec scores more than the top score, and the top group is made of
      distinct codecs that all reach it. */
  lemma TopGroupFacts(t: Tally)
    requires Valid(t)
    ensures forall e :: e in t.hist ==> Count(t, e) <= MaxCount(t)
    ensures Distinct(TopGroup(t))
    ensures forall k :: 0 <= k < |TopGroup(t)| ==> Count(t, TopGroup(t)[k]) == MaxCount(t)
    ensures forall e :: e in TopGroup(t) <==> e in t.hist && Count(t, e) == MaxCount(t)
  {
    forall e | e in t.hist ensures Count(t, e) <= MaxCount(t) {
      MaxOverBound(t, t.order, e);
    }
    FilterDistinct(t.order, HasCount(t, MaxCount(t)));
    FilterAll(t.order, HasCount(t, MaxCount(t)));
    forall e ensures e in TopGroup(t) <==> e in t.hist && Count(t, e) == MaxCount(t) {
      FilterMembers(t.order, HasCount(t, MaxCount(t)), e);
    }
  }

  /** With no score at all, `best[0]` fails; that is the only way to get no
      score. */
  lemma SelectEmpty(lib: Codecs, t: Tally, example: string)
    requires Valid(t)
    ensures Select(lib, t, example) == Failed([], NoScores) <==> t.hist == map[]
  {
    ItemsOfShape(t, t.order);
    SortFacts(Items(t));
    assert |SortByScore(Items(t))| == |Items(t)| by {
      assert |multiset(SortByScore(Items(t)))| == |multiset(Items(t))|;
    }
    if t.order != [] {
      assert t.order[0] in t.hist;
      SelectShows(lib, t, example);
    }
  }

  /** The walk over the whole sorted histogram ends as the walk over the top
      group does, or stops right after it with the same lines shown. */
  lemma WalkBest(lib: Codecs, t: Tally, example: string)
    requires t.order != []
    ensures var best := SortByScore(Items(t)); var m := MaxCount(t);
      var w := WalkOver(lib, t, example, m, ItemsOf(t, TopGroup(t)));
      && best != [] && best[0].1 == m
      && (WalkOver(lib, t, example, m, best) == w
          || (w.Walking? && WalkOver(lib, t, example, m, best) == Stopped(w.picks)))
  {
    BestPrefix(t);
    WalkPrefix(lib, t, example, MaxCount(t), SortByScore(Items(t)), |TopGroup(t)|);
  }

  /** A walk whose entry `k` has another score ends as its first `k`
      entries leave it, or stops right there. */
  lemma WalkPrefix(lib: Codecs, t: Tally, example: string, top: nat, items: seq<Item>, k: nat)
    requires k <= |items| && (k < |items| ==> items[k].1 != top)
    ensures var w := WalkOver(lib, t, example, top, items[..k]);
      WalkOver(lib, t, example, top, items) == w
      || (w.Walking? && WalkOver(lib, t, example, top, items) == Stopped(w.picks))
  {
    var w := WalkOver(lib, t, example, top, items[..k]);
    if k < |items| {
      assert DropLast(items[..k + 1]) == items[..k];
      if w.Walking? {
        WalkSettled(lib, t, example, top, items, k + 1);
      } else {
        WalkSettled(lib, t, example, top, items, k);
      }
    } else {
      assert items[..k] == items;
    }
  }

  /** What the selector shows for a non-empty histogram: only codecs with
      the top score, in insertion order, none with the sample of another, each
      with the example and its repair. Unless it crashes, it shows exactly the
      top-scoring codecs whose sample no earlier one had. A crash happens at
      the first such codec that cannot repair the example, after every such
      codec before it was shown. */
  lemma SelectShows(lib: Codecs, t: Tally, example: string)
    requires Valid(t) && t.hist != map[]
    ensures var sel := Select(lib, t, example); var g := TopGroup(t);
      && ShownFrom(lib, t, example, g, sel.picks)
      && (forall k :: 0 <= k < |sel.picks| ==> Count(t, sel.picks[k].enc) == MaxCount(t))
      && (sel.Shown? ==>
            forall i :: 0 <= i < |g| ==> (g[i] in PickedEncs(sel.picks) <==> FirstOfSample(t, g, i)))
      && (sel.Failed? ==>
            sel.failure.Unrepairable? && exists c :: CrashedAt(lib, t, example, g, sel.picks, sel.failure.enc, c))
  {
    var e0 :| e0 in t.hist;
    assert t.order != [];
    var g := TopGroup(t);
    var m := MaxCount(t);
    TopGroupFacts(t);
    WalkGroup(lib, t, example, m, g);
    WalkBest(lib, t, example);
    var sel := Select(lib, t, example);
    var w := WalkOver(lib, t, example, m, ItemsOf(t, g));
    assert GroupInv(lib, t, example, g, w);
    assert sel.picks == w.picks;
    forall k | 0 <= k < |sel.picks| ensures Count(t, sel.picks[k].enc) == m {
      PickedEncsMembers(sel.picks, sel.picks[k].enc);
      SubsequenceMembers(PickedEncs(sel.picks), g, sel.picks[k].enc);
    }
  }

  /** A single top-scoring codec that repairs the example is the one line
      shown. */
  lemma SelectSingleTop(lib: Codecs, t: Tally, example: string, fixed: string)
    requires Valid(t) && |TopGroup(t)| == 1
    requires Recode(lib, TopGroup(t)[0], example) == Some(fixed)
    ensures Select(lib, t, example) == Shown([Pick(TopGroup(t)[0], example, fixed)])
  {
    var g := TopGroup(t);
    assert g[0] in t.hist by {
      TopGroupFacts(t);
    }
    SelectShows(lib, t, example);
    var sel := Select(lib, t, example);
    assert sel.Shown?;
    ShownSingle(lib, t, example, g, sel.picks, fixed);
  }

  /** Over a group of one codec that repairs the example, showing exactly
      the first of each sample means showing that codec alone. */
  lemma ShownSingle(lib: Codecs, t: Tally, example: string, g: seq<string>, picks: seq<Pick>, fixed: string)
    requires |g| == 1 && Recode(lib, g[0], example) == Some(fixed)
    requires ShownFrom(lib, t, example, g, picks)
    requires forall i :: 0 <= i < |g| ==> (g[i] in PickedEncs(picks) <==> FirstOfSample(t, g, i))
    ensures picks == [Pick(g[0], example, fixed)]
  {
    assert FirstOfSample(t, g, 0);
    assert g[0] in PickedEncs(picks);
    SubsequenceLength(PickedEncs(picks), g);
    assert |picks| == 1;
    assert picks[0].enc == g[0];
  }

  /** A file without a single non-ASCII line leaves the histogram empty, and
      the selector then fails at `best[0]` instead of showing nothing. */
  lemma AllAsciiFails(lib: Codecs, encs: seq<string>, lines: seq<string>)
    requires forall i :: 0 <= i < |lines| ==> IsAsciiText(lines[i])
    ensures Select(lib, ScoreLines(lib, encs, lines), Example(lines)) == Failed([], NoScores)
  {
    AsciiLinesIgnored(lib, encs, lines);
    FilterNone(lines, HasNonAscii);
    assert ScoreLines(lib, encs, lines) == Fresh;
    SelectEmpty(lib, Fresh, Example(lines));
  }
}
