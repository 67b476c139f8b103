/** The similarity index (`2df.c`): per feature a table from values to images, and the choice of a base. */
module FeatureIndex {
  import opened Common

  /** An image's features, with the DC values and the places they were found at. */
  datatype Features = Features(sfs: seq<nat>, dc: seq<int>, position: seq<nat>)

  predicate Sized(f: Features, n: nat) {
    |f.sfs| == |f.dc| == |f.position| == n
  }

  predicate AllSized(images: seq<Features>, n: nat) {
    forall k :: 0 <= k < |images| ==> Sized(images[k], n)
  }

  // ---------------------------------------------------------------- exhaustive search

  /** The two images agree in feature `k`. */
  predicate Agree(a: Features, b: Features, k: nat)
    requires k < |a.sfs| && k < |a.dc| && k < |b.sfs| && k < |b.dc|
  {
    a.sfs[k] == b.sfs[k] && a.dc[k] == b.dc[k]
  }

  /** In how many of the first `n` features two images agree. */
  function Matches(a: Features, b: Features, n: nat): (r: nat)
    requires n <= |a.sfs| && n <= |a.dc| && n <= |b.sfs| && n <= |b.dc|
    ensures r <= n
  {
    if n == 0 then 0 else Matches(a, b, n - 1) + if Agree(a, b, n - 1) then 1 else 0
  }

  /** The features in which they agree, in value and DC. */
  function Agreeing(a: Features, b: Features, n: nat): set<nat>
    requires n <= |a.sfs| && n <= |a.dc| && n <= |b.sfs| && n <= |b.dc|
  {
    set k: nat | 0 <= k < n && a.sfs[k] == b.sfs[k] && a.dc[k] == b.dc[k]
  }

  lemma {:induction false} MatchesIsCount(a: Features, b: Features, n: nat)
    requires n <= |a.sfs| && n <= |a.dc| && n <= |b.sfs| && n <= |b.dc|
    ensures Matches(a, b, n) == |Agreeing(a, b, n)|
  {
    if n > 0 {
      MatchesIsCount(a, b, n - 1);
      var before, after := Agreeing(a, b, n - 1), Agreeing(a, b, n);
      if a.sfs[n - 1] == b.sfs[n - 1] && a.dc[n - 1] == b.dc[n - 1] {
        assert after == before + {n - 1};
      } else {
        assert after == before;
      }
    }
  }

  /** They agree in none of the first `n` features at the same place. */
  predicate Apart(a: Features, b: Features, n: nat)
    requires Sized(a, n) && Sized(b, n)
  {
    forall k :: 0 <= k < n && Agree(a, b, k) ==> a.position[k] != b.position[k]
  }

  lemma {:induction false} SomeAgree(a: Features, b: Features, n: nat) returns (k: nat)
    requires n <= |a.sfs| && n <= |a.dc| && n <= |b.sfs| && n <= |b.dc| && Matches(a, b, n) > 0
    ensures k < n && Agree(a, b, k)
  {
    if Agree(a, b, n - 1) {
      k := n - 1;
    } else {
      k := SomeAgree(a, b, n - 1);
    }
  }

  // ---------------------------------------------------------------- tables

  /** Only numbers of the first `m` images. */
  predicate Known(cands: seq<nat>, m: nat) {
    forall i :: 0 <= i < |cands| ==> cands[i] < m
  }

  /** Which of the first `m` images have value `f` in feature `i`. */
  function Having(images: seq<Features>, m: nat, i: nat, f: nat): (r: seq<nat>)
    requires m <= |images| && forall k :: 0 <= k < m ==> i < |images[k].sfs|
    ensures Known(r, m)
  {
    if m == 0 then [] else
      Having(images, m - 1, i, f) + if images[m - 1].sfs[i] == f then [m - 1] else []
  }

  lemma {:induction false} HavingIs(images: seq<Features>, m: nat, i: nat, f: nat, k: nat)
    requires m <= |images| && forall k :: 0 <= k < m ==> i < |images[k].sfs|
    ensures k in Having(images, m, i, f) <==> k < m && images[k].sfs[i] == f
  {
    if m > 0 { HavingIs(images, m - 1, i, f, k); }
  }

  lemma {:induction false} HavingPrefix(images: seq<Features>, more: seq<Features>, m: nat, i: nat, f: nat)
    requires m <= |images| && forall k :: 0 <= k < m ==> i < |images[k].sfs|
    ensures Having(images + more, m, i, f) == Having(images, m, i, f)
  {
    if m > 0 { HavingPrefix(images, more, m - 1, i, f); }
  }

  /** What the tables offer for an image, feature by feature. */
  function Candidates(images: seq<Features>, image: Features, i: nat, n: nat): (r: seq<nat>)
    requires i <= n && AllSized(images, n) && Sized(image, n)
    ensures Known(r, |images|)
  {
    if i == 0 then [] else
      Candidates(images, image, i - 1, n) + Having(images, |images|, i - 1, image.sfs[i - 1])
  }

  lemma {:induction false} CandidatesHave(images: seq<Features>, image: Features, i: nat, n: nat, k: nat)
    requires i <= n && AllSized(images, n) && Sized(image, n)
    requires k < |images| && exists j :: 0 <= j < i && images[k].sfs[j] == image.sfs[j]
    ensures k in Candidates(images, image, i, n)
  {
    HavingIs(images, |images|, i - 1, image.sfs[i - 1], k);
    if images[k].sfs[i - 1] != image.sfs[i - 1] {
      CandidatesHave(images, image, i - 1, n, k);
    }
  }

  /** A choice of base: in how many features it agrees, which image it is, and whether none is at the same place. */
  datatype Choice = Choice(count: nat, base: nat, fixFlag: bool)

  /** The first candidate with the most agreeing features. */
  function Best(images: seq<Features>, image: Features, cands: seq<nat>, n: nat): (best: Choice)
    requires AllSized(images, n) && Sized(image, n) && Known(cands, |images|)
    ensures best.count <= n
  {
    if cands == [] then Choice(0, 0, true) else
      var best := Best(images, image, cands[..|cands| - 1], n);
      var c := cands[|cands| - 1];
      var count := Matches(images[c], image, n);
      if count > best.count then Choice(count, c, Apart(images[c], image, n)) else best
  }

  lemma {:induction false} BestIs(images: seq<Features>, image: Features, cands: seq<nat>, n: nat) returns (at: nat)
    requires AllSized(images, n) && Sized(image, n) && Known(cands, |images|)
    ensures var best := Best(images, image, cands, n);
            && (forall i :: 0 <= i < |cands| ==> Matches(images[cands[i]], image, n) <= best.count)
            && (best.count > 0 ==>
                  && at < |cands| && cands[at] == best.base && Matches(images[best.base], image, n) == best.count
                  && best.fixFlag == Apart(images[best.base], image, n)
                  && forall i :: 0 <= i < at ==> Matches(images[cands[i]], image, n) < best.count)
  {
    hide Matches, Apart;
    at := 0;
    if cands != [] {
      var m := |cands| - 1;
      at := BestIs(images, image, cands[..m], n);
      assert forall i :: 0 <= i < m ==> cands[..m][i] == cands[i];
      if Matches(images[cands[m]], image, n) > Best(images, image, cands[..m], n).count {
        at := m;
      }
    }
  }

  /** What the index is to choose. */
  function Chosen(images: seq<Features>, image: Features, n: nat): Choice
    requires AllSized(images, n) && Sized(image, n)
  {
    Best(images, image, Candidates(images, image, n, n), n)
  }

  /** Image `k` agrees in as many features as any. */
  ghost predicate MostAgreeing(images: seq<Features>, image: Features, n: nat, k: nat)
    requires AllSized(images, n) && Sized(image, n) && k < |images|
  {
    forall j :: 0 <= j < |images| ==> |Agreeing(images[j], image, n)| <= |Agreeing(images[k], image, n)|
  }

  /**
    * The choice agrees with exhaustive search: the chosen image agrees in most features of all earlier ones, and there
    * is none exactly when no earlier image agrees in any. The flag says whether all agreeing features of the chosen one
    * are at other places.
    */
  lemma ChosenIsBest(images: seq<Features>, image: Features, n: nat)
    requires AllSized(images, n) && Sized(image, n)
    ensures var best := Chosen(images, image, n);
            && (best.count == 0 <==> forall k :: 0 <= k < |images| ==> Agreeing(images[k], image, n) == {})
            && (best.count > 0 ==>
                  && best.base < |images| && best.count == |Agreeing(images[best.base], image, n)|
                  && MostAgreeing(images, image, n, best.base)
                  && (best.fixFlag <==> forall k :: 0 <= k < n && images[best.base].sfs[k] == image.sfs[k]
                                          && images[best.base].dc[k] == image.dc[k]
                                          ==> images[best.base].position[k] != image.position[k]))
  {
    hide Matches, Candidates, Best, Agreeing;
    var cands := Candidates(images, image, n, n);
    var at := BestIs(images, image, cands, n);
    var best := Best(images, image, cands, n);
    forall k | 0 <= k < |images|
      ensures Matches(images[k], image, n) == |Agreeing(images[k], image, n)| <= best.count
    {
      MatchesIsCount(images[k], image, n);
      if Matches(images[k], image, n) > 0 {
        AgreeingIsCandidate(images, image, n, k);
        var i :| 0 <= i < |cands| && cands[i] == k;
      }
    }
  }

  /** An image that agrees in a feature is listed under that feature. */
  lemma AgreeingIsCandidate(images: seq<Features>, image: Features, n: nat, k: nat)
    requires AllSized(images, n) && Sized(image, n) && k < |images| && Matches(images[k], image, n) > 0
    ensures k in Candidates(images, image, n, n)
  {
    var j := SomeAgree(images[k], image, n);
    CandidatesHave(images, image, n, n, k);
  }

  // ---------------------------------------------------------------- which of several

  /** The first feature in which two images have the same value, `n` if there is none. */
  function FirstShared(a: Features, b: Features, n: nat, from: nat): (j: nat)
    requires from <= n <= |a.sfs| && n <= |b.sfs|
    ensures from <= j <= n && (j < n ==> a.sfs[j] == b.sfs[j])
    ensures forall k :: from <= k < j ==> a.sfs[k] != b.sfs[k]
    decreases n - from
  {
    if from == n || a.sfs[from] == b.sfs[from] then from else FirstShared(a, b, n, from + 1)
  }

  /** Images in a table are in the order in which they came. */
  lemma {:induction false} HavingSorted(images: seq<Features>, m: nat, i: nat, f: nat, p: nat, q: nat)
    requires m <= |images| && forall k :: 0 <= k < m ==> i < |images[k].sfs|
    requires p < q < |Having(images, m, i, f)|
    ensures Having(images, m, i, f)[p] < Having(images, m, i, f)[q]
  {
    var before := Having(images, m - 1, i, f);
    if q < |before| {
      HavingSorted(images, m - 1, i, f, p, q);
    }
  }

  /** An image is offered first by the first table that it shares a value with, after all images before it there. */
  ghost predicate OfferedFirst(images: seq<Features>, image: Features, n: nat, j: nat, k: nat)
    requires AllSized(images, n) && Sized(image, n) && j < |images| && k < |images|
  {
    var a, b := FirstShared(images[j], image, n, 0), FirstShared(images[k], image, n, 0);
    a < b || (a == b && j < k)
  }

  /** Wherever an image is offered, one that is offered first has been offered before. */
  lemma {:induction false} OfferedBefore(images: seq<Features>, image: Features, i: nat, n: nat, j: nat, k: nat, q: nat)
    returns (p: nat)
    requires i <= n && AllSized(images, n) && Sized(image, n) && j < |images| && k < |images|
    requires OfferedFirst(images, image, n, j, k)
    requires q < |Candidates(images, image, i, n)| && Candidates(images, image, i, n)[q] == k
    ensures p < q && Candidates(images, image, i, n)[p] == j
  {
    hide Having;
    var f := image.sfs[i - 1];
    var before, table := Candidates(images, image, i - 1, n), Having(images, |images|, i - 1, f);
    if q < |before| {
      p := OfferedBefore(images, image, i - 1, n, j, k, q);
    } else {
      HavingIs(images, |images|, i - 1, f, k);
      assert table[q - |before|] == k;
      assert images[k].sfs[i - 1] == f;
      if FirstShared(images[j], image, n, 0) < i - 1 {
        CandidatesHave(images, image, i - 1, n, j);
        p :| 0 <= p < |before| && before[p] == j;
      } else {
        p := EarlierInTable(images, i - 1, f, j, k, q - |before|);
        p := |before| + p;
      }
    }
  }

  lemma EarlierInTable(images: seq<Features>, i: nat, f: nat, j: nat, k: nat, q: nat) returns (p: nat)
    requires (forall m :: 0 <= m < |images| ==> i < |images[m].sfs|) && j < k < |images| && images[j].sfs[i] == f
    requires q < |Having(images, |images|, i, f)| && Having(images, |images|, i, f)[q] == k
    ensures p < q && Having(images, |images|, i, f)[p] == j
  {
    HavingIs(images, |images|, i, f, j);
    var table := Having(images, |images|, i, f);
    p :| 0 <= p < |table| && table[p] == j;
    if p > q { HavingSorted(images, |images|, i, f, q, p); }
  }

  /** Of several images that agree in most features, the one that is offered first is chosen. */
  lemma ChosenIsFirst(images: seq<Features>, image: Features, n: nat, k: nat)
    requires AllSized(images, n) && Sized(image, n) && k < |images|
    requires Chosen(images, image, n).count > 0 && k != Chosen(images, image, n).base
    requires |Agreeing(images[k], image, n)| == Chosen(images, image, n).count
    ensures Chosen(images, image, n).base < |images|
    ensures OfferedFirst(images, image, n, Chosen(images, image, n).base, k)
  {
    hide Matches, Candidates, Best, Agreeing, FirstShared;
    MatchesIsCount(images[k], image, n);
    var cands := Candidates(images, image, n, n);
    var at := BestIs(images, image, cands, n);
    var base := Best(images, image, cands, n).base;
    if OfferedFirst(images, image, n, k, base) {
      var p := OfferedBefore(images, image, n, n, k, base, at);
      assert false;
    }
  }
  /** Once all features agree, no candidate is better. */
  lemma {:induction false} FullStays(images: seq<Features>, image: Features, cands: seq<nat>, more: seq<nat>, n: nat)
    requires AllSized(images, n) && Sized(image, n)
    requires Known(cands, |images|) && Known(cands + more, |images|) && Best(images, image, cands, n).count == n
    ensures Best(images, image, cands + more, n) == Best(images, image, cands, n)
  {
    hide Matches, Apart;
    if more == [] {
      assert cands + more == cands;
    } else {
      var m := |more| - 1;
      assert (cands + more)[..|cands + more| - 1] == cands + more[..m];
      FullStays(images, image, cands, more[..m], n);
    }
  }

  // ---------------------------------------------------------------- detection

  function Lookup(table: map<nat, seq<nat>>, f: nat): seq<nat> {
    if f in table then table[f] else []
  }

  /** Table `i` lists, under every value, exactly the images that have it. */
  ghost predicate Lists(table: map<nat, seq<nat>>, images: seq<Features>, i: nat)
    requires forall k :: 0 <= k < |images| ==> i < |images[k].sfs|
  {
    forall f: nat :: Lookup(table, f) == Having(images, |images|, i, f)
  }

  lemma ListsOneMore(table: map<nat, seq<nat>>, images: seq<Features>, image: Features, i: nat)
    requires i < |image.sfs| && (forall k :: 0 <= k < |images| ==> i < |images[k].sfs|) && Lists(table, images, i)
    ensures forall k :: 0 <= k < |images + [image]| ==> i < |(images + [image])[k].sfs|
    ensures Lists(table[image.sfs[i] := Lookup(table, image.sfs[i]) + [|images|]], images + [image], i)
  {
    hide Having, Lookup;
    var v := image.sfs[i];
    var list := Lookup(table, v) + [|images|];
    forall f: nat ensures Lookup(table[v := list], f) == Having(images + [image], |images + [image]|, i, f) {
      HavingOneMore(images, image, i, f);
      LookupUpdated(table, v, list, f);
      assert Lookup(table, f) == Having(images, |images|, i, f);
    }
  }

  lemma HavingOneMore(images: seq<Features>, image: Features, i: nat, f: nat)
    requires i < |image.sfs| && forall k :: 0 <= k < |images| ==> i < |images[k].sfs|
    ensures Having(images + [image], |images + [image]|, i, f)
         == Having(images, |images|, i, f) + if image.sfs[i] == f then [|images|] else []
  {
    HavingPrefix(images, [image], |images|, i, f);
  }

  lemma LookupUpdated(table: map<nat, seq<nat>>, v: nat, list: seq<nat>, f: nat)
    ensures Lookup(table[v := list], f) == if f == v then list else Lookup(table, f)
  {
  }

  /** Counts the features in which two images agree; the flag stays set while none is at the same place. */
  method CountMatches(base: Features, image: Features, n: nat) returns (matchCounter: nat, flag: bool)
    requires Sized(base, n) && Sized(image, n)
    ensures matchCounter == Matches(base, image, n) && flag == Apart(base, image, n)
  {
    matchCounter, flag := 0, true;
    for k := 0 to n
      invariant matchCounter == Matches(base, image, k)
      invariant flag <==> forall j :: 0 <= j < k && Agree(base, image, j) ==> base.position[j] != image.position[j]
    {
      if base.sfs[k] == image.sfs[k] && base.dc[k] == image.dc[k] {
        matchCounter := matchCounter + 1;
        if base.position[k] == image.position[k] {
          flag := false;
        }
      }
    }
  }

  /** What one more candidate changes. */
  lemma OneMoreCandidate(images: seq<Features>, image: Features, before: seq<nat>, list: seq<nat>, j: nat, n: nat)
    requires AllSized(images, n) && Sized(image, n) && j < |list|
    requires Known(before + list[..j], |images|) && Known(before + list, |images|)
    ensures list[j] < |images| && Sized(images[list[j]], n) && Known(before + list[..j + 1], |images|)
    ensures var best := Best(images, image, before + list[..j], n);
            var count := Matches(images[list[j]], image, n);
            && count <= n && best.count <= n
            && Best(images, image, before + list[..j + 1], n)
               == if count > best.count then Choice(count, list[j], Apart(images[list[j]], image, n)) else best
    ensures before + list[..j + 1] + list[j + 1..] == before + list
  {
    hide Matches, Apart;
    var cands := before + list[..j + 1];
    assert cands[|cands| - 1] == (before + list)[|before| + j] == list[j];
    assert cands[..|cands| - 1] == before + list[..j];
  }

  class Index {
    const sfNum: nat
    var images: seq<Features>
    var tables: seq<map<nat, seq<nat>>>

    constructor (sfNum: nat)
      ensures Valid() && this.sfNum == sfNum && images == []
    {
      this.sfNum := sfNum;
      images, tables := [], seq(sfNum, _ => map[]);
    }

    /** Every table agrees with the images seen so far. */
    ghost predicate Valid()
      reads this
    {
      && AllSized(images, sfNum) && |tables| == sfNum
      && forall i :: 0 <= i < sfNum ==> Lists(tables[i], images, i)
    }

    /** Looks through one feature's list, stopping when every feature agrees. */
    method LookThrough(image: Features, list: seq<nat>, best: Choice, ghost before: seq<nat>) returns (best': Choice)
      requires AllSized(images, sfNum) && Sized(image, sfNum)
      requires Known(before, |images|) && Known(list, |images|) && Known(before + list, |images|)
      requires best == Best(images, image, before, sfNum)
      ensures best' == Best(images, image, before + list, sfNum)
    {
      hide *;
      best' := best;
      assert before + list[..0] == before;
      for j := 0 to |list|
        invariant Known(before + list[..j], |images|)
        invariant best' == Best(images, image, before + list[..j], sfNum)
      {
        OneMoreCandidate(images, image, before, list, j, sfNum);
        var matchCounter, flagTmp := CountMatches(images[list[j]], image, sfNum);
        if matchCounter > best'.count {
          best' := Choice(matchCounter, list[j], flagTmp);
        }
        if matchCounter == sfNum {
          FullStays(images, image, before + list[..j + 1], list[j + 1..], sfNum);
          return;
        }
      }
      assert list[..|list|] == list;
    }

    /** One feature: looks through its list, unless all features agree already, and adds the image to it. */
    method Feature(image: Features, i: nat, best: Choice) returns (best': Choice)
      requires Sized(image, sfNum) && AllSized(images, sfNum) && |tables| == sfNum && i < sfNum
      requires Lists(tables[i], images, i) && best == Best(images, image, Candidates(images, image, i, sfNum), sfNum)
      modifies this`tables
      ensures |tables| == sfNum && (forall j :: 0 <= j < sfNum && j != i ==> tables[j] == old(tables[j]))
      ensures Lists(tables[i], images + [image], i)
      ensures best' == Best(images, image, Candidates(images, image, i + 1, sfNum), sfNum)
    {
      hide Best, Having;
      var list := Lookup(tables[i], image.sfs[i]);
      ghost var cands := Candidates(images, image, i, sfNum);
      best' := best;
      if best.count < sfNum && list != [] {
        best' := LookThrough(image, list, best, cands);
      } else {
        if list == [] {
          assert cands + list == cands;
        } else {
          FullStays(images, image, cands, list, sfNum);
        }
      }
      ListsOneMore(tables[i], images, image, i);
      tables := tables[i := tables[i][image.sfs[i] := list + [|images|]]];
    }

    /** `detect_a_single_img`: the base for an image, and the image entered in all tables. */
    method Detect(image: Features) returns (base: Option<nat>, fixFlag: bool)
      requires Valid() && Sized(image, sfNum)
      modifies this`images, this`tables
      ensures Valid() && images == old(images) + [image]
      ensures var best := Chosen(old(images), image, sfNum);
              if best.count == 0 then base == None else base == Some(best.base) && fixFlag == best.fixFlag
      ensures base.Some? ==> base.value < |old(images)|
    {
      hide Best, Lists, Matches, Candidates;
      ghost var before := images;
      var best := Choice(0, 0, true);
      NoCandidates(images, image, sfNum);
      for i := 0 to sfNum
        invariant |tables| == sfNum && images == before
        invariant best == Best(images, image, Candidates(images, image, i, sfNum), sfNum)
        invariant forall j :: 0 <= j < i ==> Lists(tables[j], images + [image], j)
        invariant forall j :: i <= j < sfNum ==> Lists(tables[j], images, j)
      {
        best := Feature(image, i, best);
      }
      ChosenIsBest(images, image, sfNum);
      images := images + [image];
      base := if best.count == 0 then None else Some(best.base);
      fixFlag := best.fixFlag;
    }
  }

  lemma NoCandidates(images: seq<Features>, image: Features, n: nat)
    requires AllSized(images, n) && Sized(image, n)
    ensures Best(images, image, Candidates(images, image, 0, n), n) == Choice(0, 0, true)
  {
  }
}
