/** Move-to-front with run coding: `djw_compute_mtf_1_2` and `djw_decode_1_2`. */
module DjwMtf {
  import opened Common
  import opened Kraft
  import opened Arith
  import opened BitIO
  import opened DjwCodes

  // ---------------------------------------------------------------- specification

  /** The first place of `sym` in the table. */
  function Index(table: seq<nat>, sym: nat): (j: nat)
    requires sym in table
    ensures j < |table| && table[j] == sym && forall k :: 0 <= k < j ==> table[k] != sym
  {
    if table[0] == sym then 0 else 1 + Index(table[1..], sym)
  }

  function MoveToFront(table: seq<nat>, j: nat): (r: seq<nat>)
    requires j < |table|
    ensures |r| == |table| && r[0] == table[j]
    ensures multiset(r) == multiset(table)
  {
    assert table == table[..j] + [table[j]] + table[j + 1..];
    [table[j]] + table[..j] + table[j + 1..]
  }

  /** A run length in bijective base 2, lowest digit first: digit 0 is worth one unit and digit 1 two. */
  function Runs(n: nat): (r: seq<nat>)
    ensures |r| <= n
    ensures n > 0 ==> r != []
    ensures forall k :: 0 <= k < |r| ==> r[k] <= 1
  {
    if n == 0 then [] else [(n - 1) % 2] + Runs((n - 1) / 2)
  }

  ghost predicate Listed(syms: seq<nat>, table: seq<nat>) {
    forall k :: 0 <= k < |syms| ==> syms[k] in table
  }

  /** The coded form of `syms`, after `run` symbols equal to the head of the table. */
  function Encode(syms: seq<nat>, table: seq<nat>, run: nat): (r: seq<nat>)
    requires Listed(syms, table)
    ensures |r| <= |syms| + run
  {
    if syms == [] then Runs(run) else
      var j := Index(table, syms[0]);
      if j == 0 then Encode(syms[1..], table, run + 1) else
        ListedMoved(syms[1..], table, j);
        Runs(run) + ([j + 1] + Encode(syms[1..], MoveToFront(table, j), 0))
  }

  lemma EncodeSame(syms: seq<nat>, table: seq<nat>, run: nat)
    requires Listed(syms, table) && syms != [] && Index(table, syms[0]) == 0
    ensures Listed(syms[1..], table) && Encode(syms, table, run) == Encode(syms[1..], table, run + 1)
  {
    hide Runs, MoveToFront;
  }

  lemma EncodeMoved(syms: seq<nat>, table: seq<nat>, run: nat)
    requires Listed(syms, table) && syms != [] && Index(table, syms[0]) != 0
    ensures var j := Index(table, syms[0]);
            && Listed(syms[1..], MoveToFront(table, j))
            && Encode(syms, table, run) == Runs(run) + ([j + 1] + Encode(syms[1..], MoveToFront(table, j), 0))
  {
    hide Runs, MoveToFront;
    ListedMoved(syms[1..], table, Index(table, syms[0]));
  }

  lemma ListedMoved(syms: seq<nat>, table: seq<nat>, j: nat)
    requires Listed(syms, table) && j < |table|
    ensures Listed(syms, MoveToFront(table, j))
  {
    forall k | 0 <= k < |syms| ensures syms[k] in MoveToFront(table, j) {
      assert syms[k] in multiset(table);
    }
  }

  /** The table when all symbols have been seen. */
  function FinalTable(syms: seq<nat>, table: seq<nat>): seq<nat>
    requires Listed(syms, table)
  {
    if syms == [] then table else
      var j := Index(table, syms[0]);
      ListedMoved(syms[1..], table, j);
      FinalTable(syms[1..], MoveToFront(table, j))
  }

  lemma FinalStep(syms: seq<nat>, table: seq<nat>)
    requires Listed(syms, table) && syms != []
    ensures var table' := MoveToFront(table, Index(table, syms[0]));
            Listed(syms[1..], table') && FinalTable(syms, table) == FinalTable(syms[1..], table')
  {
    hide MoveToFront;
    ListedMoved(syms[1..], table, Index(table, syms[0]));
  }

  lemma MoveFirst(table: seq<nat>)
    requires table != []
    ensures MoveToFront(table, 0) == table
  {
  }

  // ---------------------------------------------------------------- what the coded symbols mean

  /** The value of digits in bijective base 2, lowest first. */
  function RunValue(digits: seq<nat>): nat {
    if digits == [] then 0 else digits[0] + 1 + 2 * RunValue(digits[1..])
  }

  /** Exactly one string of the digits 0 and 1 stands for each run length. */
  lemma {:induction false} RunsIsNumeral(n: nat, digits: seq<nat>)
    requires forall k :: 0 <= k < |digits| ==> digits[k] <= 1
    ensures Runs(n) == digits <==> RunValue(digits) == n
    decreases |digits|
  {
    if digits != [] && n > 0 {
      RunsIsNumeral((n - 1) / 2, digits[1..]);
      assert digits == [digits[0]] + digits[1..];
    }
  }

  ghost predicate Distinct(table: seq<nat>) {
    forall i, j :: 0 <= i < j < |table| ==> table[i] != table[j]
  }

  /** The symbols seen since `sym`: they stand before it in the table. */
  ghost predicate Recent(table: seq<nat>, seen: set<nat>, sym: nat) {
    && Distinct(table) && |seen| < |table| && table[|seen|] == sym && sym !in seen
    && forall x :: x in table[..|seen|] <==> x in seen
  }

  lemma SameFront(table: seq<nat>, table': seq<nat>, j: nat, n: nat)
    requires j < n <= |table| && table' == MoveToFront(table, j)
    ensures forall x :: x in table'[..n] <==> x in table[..n]
    ensures forall k :: n <= k < |table| ==> table'[k] == table[k]
  {
    var front := [table[j]] + table[..j] + table[j + 1..n];
    assert table'[..n] == front;
    assert table[..n] == table[..j] + [table[j]] + table[j + 1..n];
  }

  lemma OneMoreInFront(table: seq<nat>, table': seq<nat>, j: nat, n: nat)
    requires n <= j < |table| && table' == MoveToFront(table, j)
    ensures table'[..n + 1] == [table[j]] + table[..n]
    ensures n < j ==> table'[n + 1] == table[n]
  {
  }

  lemma MovedDistinct(table: seq<nat>, j: nat)
    requires Distinct(table) && j < |table|
    ensures Distinct(MoveToFront(table, j))
  {
  }

  /** Another symbol is seen. */
  lemma RecentStep(table: seq<nat>, seen: set<nat>, sym: nat, x: nat)
    requires Recent(table, seen, sym) && x in table && x != sym
    ensures Recent(MoveToFront(table, Index(table, x)), seen + {x}, sym)
  {
    hide MoveToFront;
    var j, n := Index(table, x), |seen|;
    var table' := MoveToFront(table, j);
    MovedDistinct(table, j);
    if j < n {
      assert table[..n][j] == x;
      assert seen + {x} == seen;
      SameFront(table, table', j, n);
    } else {
      assert x !in table[..n];
      OneMoreInFront(table, table', j, n);
    }
  }

  function SeenIn(syms: seq<nat>): set<nat> {
    set k | 0 <= k < |syms| :: syms[k]
  }

  /** After a symbol and others, the others stand before it. */
  lemma {:induction false} RecentAfter(syms: seq<nat>, table: seq<nat>, seen: set<nat>, sym: nat)
    requires Recent(table, seen, sym) && Listed(syms, table) && sym !in SeenIn(syms)
    ensures Recent(FinalTable(syms, table), seen + SeenIn(syms), sym)
    decreases |syms|
  {
    hide Recent, MoveToFront;
    if syms == [] {
      assert seen + SeenIn(syms) == seen;
    } else {
      assert syms[0] in SeenIn(syms);
      RecentStep(table, seen, sym, syms[0]);
      FinalStep(syms, table);
      var table' := MoveToFront(table, Index(table, syms[0]));
      assert forall k :: 0 <= k < |syms| - 1 ==> syms[1..][k] == syms[k + 1];
      RecentAfter(syms[1..], table', seen + {syms[0]}, sym);
      FirstSeen(syms);
      assert seen + {syms[0]} + SeenIn(syms[1..]) == seen + SeenIn(syms);
    }
  }

  lemma FirstSeen(syms: seq<nat>)
    requires syms != []
    ensures SeenIn(syms) == {syms[0]} + SeenIn(syms[1..])
  {
    assert forall k :: 0 < k < |syms| ==> syms[k] == syms[1..][k - 1];
  }

  /** A symbol's place in the table is the number of different symbols since it was last seen. */
  lemma PlaceIsRecency(syms: seq<nat>, table: seq<nat>, sym: nat)
    requires Distinct(table) && sym in table && Listed(syms, table) && sym !in SeenIn(syms)
    ensures var now := FinalTable([sym] + syms, table);
            sym in now && Index(now, sym) == |SeenIn(syms)|
  {
    hide MoveToFront, FinalTable;
    var all := [sym] + syms;
    assert all[1..] == syms;
    FinalStep(all, table);
    var j := Index(table, sym);
    MovedDistinct(table, j);
    var table' := MoveToFront(table, j);
    assert Recent(table', {}, sym);
    RecentAfter(syms, table', {}, sym);
    assert {} + SeenIn(syms) == SeenIn(syms);
    var now := FinalTable(syms, table');
    IndexIs(now, sym, |SeenIn(syms)|);
  }

  // ---------------------------------------------------------------- the encoder

  /** `freq` counts `tokens` on top of `before`. */
  ghost predicate Counted(freq: seq<nat>, before: seq<nat>, tokens: seq<nat>) {
    |freq| == |before| && forall t :: 0 <= t < |freq| ==> freq[t] == before[t] + multiset(tokens)[t]
  }

  lemma CountedNothing(freq: seq<nat>)
    ensures Counted(freq, freq, [])
  {
  }

  lemma CountedMore(freq: seq<nat>, freq': seq<nat>, before: seq<nat>, tokens: seq<nat>, more: seq<nat>)
    requires Counted(freq, before, tokens) && Counted(freq', freq, more)
    ensures Counted(freq', before, tokens + more)
  {
    assert multiset(tokens + more) == multiset(tokens) + multiset(more);
  }

  /** Appends one coded symbol and counts it. */
  method Emit(token: nat, mtfI: nat, mtfsym: array<nat>, freq: array<nat>)
    requires mtfI < mtfsym.Length && token < freq.Length && mtfsym != freq
    modifies mtfsym, freq
    ensures mtfsym[..mtfI + 1] == old(mtfsym[..mtfI]) + [token]
    ensures Counted(freq[..], old(freq[..]), [token])
  {
    mtfsym[mtfI] := token;
    freq[token] := freq[token] + 1;
  }

  /** Writes out a run in base 2. */
  method Update12(run: nat, mtfI: nat, mtfsym: array<nat>, freq: array<nat>) returns (mtfI': nat)
    requires run > 0 && mtfI + |Runs(run)| <= mtfsym.Length && freq.Length >= 2 && mtfsym != freq
    modifies mtfsym, freq
    ensures mtfI' == mtfI + |Runs(run)|
    ensures mtfsym[..mtfI'] == old(mtfsym[..mtfI]) + Runs(run)
    ensures Counted(freq[..], old(freq[..]), Runs(run))
  {
    hide *;
    var n := run;
    mtfI' := mtfI;
    ghost var out: seq<nat> := [];
    CountedNothing(freq[..]);
    while n >= 1
      invariant mtfI' + |Runs(n)| <= mtfsym.Length && mtfI' == mtfI + |out|
      invariant out + Runs(n) == Runs(run)
      invariant mtfsym[..mtfI'] == old(mtfsym[..mtfI]) + out
      invariant Counted(freq[..], old(freq[..]), out)
    {
      RunsStep(n, out);
      n := n - 1;
      var code := if n % 2 == 1 then 1 else 0;
      ghost var before := freq[..];
      Emit(code, mtfI', mtfsym, freq);
      CountedMore(before, freq[..], old(freq[..]), out, [code]);
      mtfI' := mtfI' + 1;
      n := n / 2;
      out := out + [code];
    }
    RunsNone(out);
  }

  /** Writes out the pending run, if there is one. */
  method FlushRun(run: nat, mtfI: nat, mtfsym: array<nat>, freq: array<nat>, ghost zero: seq<nat>)
    returns (mtfI': nat)
    requires mtfI + |Runs(run)| <= mtfsym.Length && freq.Length >= 2 && mtfsym != freq
    requires Counted(freq[..], zero, mtfsym[..mtfI])
    modifies mtfsym, freq
    ensures mtfI' == mtfI + |Runs(run)|
    ensures mtfsym[..mtfI'] == old(mtfsym[..mtfI]) + Runs(run)
    ensures Counted(freq[..], zero, mtfsym[..mtfI'])
  {
    hide *;
    mtfI' := mtfI;
    if run > 0 {
      mtfI' := Update12(run, mtfI, mtfsym, freq);
      CountedMore(old(freq[..]), freq[..], zero, old(mtfsym[..mtfI]), Runs(run));
    } else {
      RunsNone(mtfsym[..mtfI]);
    }
  }

  lemma RunsStep(n: nat, out: seq<nat>)
    requires n > 0
    ensures Runs(n) == [(n - 1) % 2] + Runs((n - 1) / 2)
    ensures out + Runs(n) == out + [(n - 1) % 2] + Runs((n - 1) / 2)
  {
    assert out + ([(n - 1) % 2] + Runs((n - 1) / 2)) == out + [(n - 1) % 2] + Runs((n - 1) / 2);
  }

  lemma RunsNone(out: seq<nat>)
    ensures Runs(0) == [] && out + Runs(0) == out && Runs(0) + out == out
  {
  }

  lemma IndexIs(table: seq<nat>, sym: nat, j: nat)
    requires j < |table| && table[j] == sym && forall i :: 0 <= i < j ==> table[i] != sym
    ensures Index(table, sym) == j
  {
    if j > 0 {
      assert sym in table[1..] by { assert table[1..][j - 1] == sym; }
      IndexIs(table[1..], sym, j - 1);
    }
  }

  /** Finds a symbol and moves it to the front. */
  method FindAndMove(mtf: array<nat>, sym: nat) returns (j: nat)
    requires sym in mtf[..]
    modifies mtf
    ensures j == Index(old(mtf[..]), sym) && mtf[..] == MoveToFront(old(mtf[..]), j)
  {
    ghost var table := mtf[..];
    ghost var at := Index(table, sym);
    j := 0;
    while mtf[j] != sym
      invariant j <= at && forall i :: 0 <= i < j ==> table[i] != sym
      decreases at - j
    {
      j := j + 1;
    }
    IndexIs(table, sym, j);
    var k := j;
    while k >= 1
      invariant 0 <= k <= j
      invariant forall i :: 0 <= i <= k ==> mtf[i] == table[i]
      invariant forall i :: k < i <= j ==> mtf[i] == table[i - 1]
      invariant forall i :: j < i < mtf.Length ==> mtf[i] == table[i]
    {
      mtf[k] := mtf[k - 1];
      k := k - 1;
    }
    mtf[0] := sym;
    MovedPointwise(table, mtf[..], j);
  }

  lemma MovedPointwise(table: seq<nat>, now: seq<nat>, j: nat)
    requires j < |table| == |now| && now[0] == table[j]
    requires forall i :: 0 < i <= j ==> now[i] == table[i - 1]
    requires forall i :: j < i < |now| ==> now[i] == table[i]
    ensures now == MoveToFront(table, j)
  {
  }

  /** The encoder's position: what is emitted and what is still to come make up the whole. */
  ghost predicate Encoding(all: seq<nat>, out: seq<nat>, syms: seq<nat>, table: seq<nat>, run: nat, final: seq<nat>) {
    && Listed(syms, table)
    && out + Encode(syms, table, run) == all
    && FinalTable(syms, table) == final
  }

  lemma EncodeHead(all: seq<nat>, out: seq<nat>, syms: seq<nat>, table: seq<nat>, run: nat, final: seq<nat>)
    requires Encoding(all, out, syms, table, run, final) && syms != []
    ensures syms[0] in table && table != []
    ensures var j := Index(table, syms[0]);
            && (j == 0 ==> Encoding(all, out, syms[1..], table, run + 1, final) && MoveToFront(table, j) == table)
            && (j > 0 ==> |out| + |Runs(run)| < |all|
                          && Encoding(all, out + Runs(run) + [j + 1], syms[1..], MoveToFront(table, j), 0, final))
  {
    hide MoveToFront, FinalTable, Encode, Runs;
    FinalStep(syms, table);
    var j := Index(table, syms[0]);
    if j == 0 {
      MoveFirst(table);
      EncodeSame(syms, table, run);
    } else {
      EncodeMoved(syms, table, run);
      Regroup(out, Runs(run), j + 1, Encode(syms[1..], MoveToFront(table, j), 0));
    }
  }

  lemma Regroup(a: seq<nat>, b: seq<nat>, x: nat, c: seq<nat>)
    ensures a + (b + ([x] + c)) == a + b + [x] + c
  {
  }

  lemma EncodeEnd(all: seq<nat>, out: seq<nat>, table: seq<nat>, run: nat, final: seq<nat>)
    requires Encoding(all, out, [], table, run, final)
    ensures out + Runs(run) == all && table == final
  {
  }

  lemma EncodeStart(syms: seq<nat>, table: seq<nat>)
    requires Listed(syms, table)
    ensures Encoding(Encode(syms, table, 0), [], syms, table, 0, FinalTable(syms, table))
    ensures |Encode(syms, table, 0)| <= |syms|
  {
  }

  /** Codes `symbol` relative to the table `mtf`; both the coded symbols and their frequencies come out. */
  method ComputeMtf12(symbol: seq<nat>, mtf: array<nat>, mtfsym: array<nat>, freqOut: array<nat>)
    returns (mcount: nat)
    requires Listed(symbol, mtf[..]) && |symbol| <= mtfsym.Length && freqOut.Length == mtf.Length + 1 && mtf.Length > 0
    requires mtf != mtfsym && mtf != freqOut && mtfsym != freqOut
    modifies mtf, mtfsym, freqOut
    ensures mcount <= |symbol| && mtfsym[..mcount] == Encode(symbol, old(mtf[..]), 0)
    ensures mtf[..] == FinalTable(symbol, old(mtf[..]))
    ensures forall t :: 0 <= t < freqOut.Length ==> freqOut[t] == multiset(mtfsym[..mcount])[t]
  {
    hide *;
    ghost var all := Encode(symbol, mtf[..], 0);
    ghost var final := FinalTable(symbol, mtf[..]);
    EncodeStart(symbol, mtf[..]);
    for t := 0 to freqOut.Length
      invariant forall k :: 0 <= k < t ==> freqOut[k] == 0
      invariant mtf[..] == old(mtf[..])
    {
      freqOut[t] := 0;
    }
    ghost var zero := freqOut[..];
    CountedNothing(zero);
    var mtfI: nat, run: nat := 0, 0;
    for i := 0 to |symbol|
      invariant mtfI <= |all| && Encoding(all, mtfsym[..mtfI], symbol[i..], mtf[..], run, final)
      invariant Counted(freqOut[..], zero, mtfsym[..mtfI])
    {
      ghost var rest := symbol[i..];
      assert rest[1..] == symbol[i + 1..] && rest[0] == symbol[i];
      mtfI, run := OneSymbol(symbol[i], mtf, mtfsym, freqOut, mtfI, run, all, rest, final, zero);
    }
    assert symbol[|symbol|..] == [];
    EncodeEnd(all, mtfsym[..mtfI], mtf[..], run, final);
    mcount := FlushRun(run, mtfI, mtfsym, freqOut, zero);
    CountedFromZero(freqOut[..], zero, mtfsym[..mcount]);
  }

  lemma CountedFromZero(freq: seq<nat>, zero: seq<nat>, tokens: seq<nat>)
    requires Counted(freq, zero, tokens) && forall t :: 0 <= t < |zero| ==> zero[t] == 0
    ensures forall t :: 0 <= t < |freq| ==> freq[t] == multiset(tokens)[t]
  {
  }

  method OneSymbol(sym: nat, mtf: array<nat>, mtfsym: array<nat>, freqOut: array<nat>, mtfI0: nat, run0: nat,
                   ghost all: seq<nat>, ghost rest: seq<nat>, ghost final: seq<nat>, ghost zero: seq<nat>)
    returns (mtfI: nat, run: nat)
    requires rest != [] && rest[0] == sym && mtfI0 <= |all| <= mtfsym.Length
    requires Encoding(all, mtfsym[..mtfI0], rest, mtf[..], run0, final)
    requires Counted(freqOut[..], zero, mtfsym[..mtfI0]) && freqOut.Length == mtf.Length + 1 && mtf.Length > 0
    requires mtf != mtfsym && mtf != freqOut && mtfsym != freqOut
    modifies mtf, mtfsym, freqOut
    ensures mtfI <= |all| && Encoding(all, mtfsym[..mtfI], rest[1..], mtf[..], run, final)
    ensures Counted(freqOut[..], zero, mtfsym[..mtfI])
  {
    hide *;
    mtfI, run := mtfI0, run0;
    ghost var out := mtfsym[..mtfI];
    EncodeHead(all, out, rest, mtf[..], run, final);
    var j := FindAndMove(mtf, sym);
    if j == 0 {
      run := run + 1;
      return;
    }
    mtfI := FlushRun(run, mtfI, mtfsym, freqOut, zero);
    mtfI := EmitPlace(j + 1, mtfI, mtfsym, freqOut, zero);
    run := 0;
  }

  /** Writes out the place of a symbol that is not at the head of the table. */
  method EmitPlace(token: nat, mtfI: nat, mtfsym: array<nat>, freq: array<nat>, ghost zero: seq<nat>)
    returns (mtfI': nat)
    requires mtfI < mtfsym.Length && token < freq.Length && mtfsym != freq
    requires Counted(freq[..], zero, mtfsym[..mtfI])
    modifies mtfsym, freq
    ensures mtfI' == mtfI + 1 && mtfsym[..mtfI'] == old(mtfsym[..mtfI]) + [token]
    ensures Counted(freq[..], zero, mtfsym[..mtfI'])
  {
    hide *;
    Emit(token, mtfI, mtfsym, freq);
    CountedMore(old(freq[..]), freq[..], zero, old(mtfsym[..mtfI]), [token]);
    mtfI' := mtfI + 1;
  }

  // ---------------------------------------------------------------- the decoder

  /** How many of the first symbols equal `x`. */
  function Lead(syms: seq<nat>, x: nat): (z: nat)
    ensures z <= |syms|
    ensures z < |syms| ==> syms[z] != x
    ensures forall k :: 0 <= k < z ==> syms[k] == x
  {
    if syms == [] || syms[0] != x then 0 else 1 + Lead(syms[1..], x)
  }

  /** The coded form of symbols that do not start with the head of the table. */
  function Tail(syms: seq<nat>, table: seq<nat>): seq<nat>
    requires Listed(syms, table) && table != []
    requires syms != [] ==> syms[0] != table[0]
  {
    if syms == [] then [] else
      var j := Index(table, syms[0]);
      ListedMoved(syms[1..], table, j);
      [j + 1] + Encode(syms[1..], MoveToFront(table, j), 0)
  }

  lemma {:induction false} EncodeLead(syms: seq<nat>, table: seq<nat>, run: nat)
    requires Listed(syms, table) && table != []
    ensures var z := Lead(syms, table[0]);
            Listed(syms[z..], table) && Encode(syms, table, run) == Runs(run + z) + Tail(syms[z..], table)
  {
    hide MoveToFront, Encode, Runs;
    var z := Lead(syms, table[0]);
    if syms == [] {
      EncodeNothing(table, run);
    } else if syms[0] == table[0] {
      EncodeSame(syms, table, run);
      EncodeLead(syms[1..], table, run + 1);
      assert syms[1..][z - 1..] == syms[z..];
    } else {
      assert syms[0..] == syms;
      EncodeMoved(syms, table, run);
    }
  }

  lemma EncodeNothing(table: seq<nat>, run: nat)
    ensures Encode([], table, run) == Runs(run) && Runs(run) + [] == Runs(run)
  {
  }

  /** `m` run units of `Pow2(s)` symbols each. */
  function Units(s: nat, m: nat): nat {
    Pow2(s) * m
  }

  /**
    * The decoder's position. `syms` are still to be produced and `tokens` still to be read; `rep` copies of
    * the table's head are due, then `m` more units of the run, or the symbol at `mtf` is due.
    */
  ghost predicate Decoding(syms: seq<nat>, tokens: seq<nat>, table: seq<nat>, rep: nat, mtf: nat, s: nat, m: nat,
                           final: seq<nat>) {
    && Listed(syms, table) && table != [] && FinalTable(syms, table) == final
    && if mtf != 0 then
         && rep == 0 && s == 0 && m == 0 && mtf < |table|
         && syms != [] && Index(table, syms[0]) == mtf
         && Listed(syms[1..], MoveToFront(table, mtf)) && tokens == Encode(syms[1..], MoveToFront(table, mtf), 0)
       else
         var z := Lead(syms, table[0]);
         z == rep + Units(s, m) && Listed(syms[z..], table) && tokens == Runs(m) + Tail(syms[z..], table)
  }

  lemma DecodeStart(syms: seq<nat>, table: seq<nat>)
    requires Listed(syms, table) && table != []
    ensures Decoding(syms, Encode(syms, table, 0), table, 0, 0, 0, Lead(syms, table[0]), FinalTable(syms, table))
  {
    hide MoveToFront, Encode, Runs, Tail, FinalTable, Lead, Listed;
    EncodeLead(syms, table, 0);
    OneUnit(Lead(syms, table[0]));
  }

  lemma OneUnit(m: nat)
    ensures Units(0, m) == m
  {
  }

  lemma DecodeRep(syms: seq<nat>, tokens: seq<nat>, table: seq<nat>, rep: nat, s: nat, m: nat, final: seq<nat>)
    requires Decoding(syms, tokens, table, rep, 0, s, m, final) && rep > 0
    ensures syms != [] && syms[0] == table[0]
    ensures Decoding(syms[1..], tokens, table, rep - 1, 0, s, m, final)
  {
    var z := Lead(syms, table[0]);
    assert syms[1..][z - 1..] == syms[z..];
    assert Index(table, syms[0]) == 0;
    MoveFirst(table);
  }

  lemma DecodeMtf(syms: seq<nat>, tokens: seq<nat>, table: seq<nat>, mtf: nat, final: seq<nat>)
    requires Decoding(syms, tokens, table, 0, mtf, 0, 0, final) && mtf != 0
    ensures mtf < |table| && syms != [] && syms[0] == table[mtf]
    ensures var table' := MoveToFront(table, mtf);
            Decoding(syms[1..], tokens, table', 0, 0, 0, Lead(syms[1..], table'[0]), final)
  {
    assert Listed(syms, table) && syms != [] && Index(table, syms[0]) == mtf && FinalTable(syms, table) == final;
    assert tokens == Encode(syms[1..], MoveToFront(table, mtf), 0);
    hide *;
    FinalStep(syms, table);
    DecodeStart(syms[1..], MoveToFront(table, mtf));
  }

  lemma UnitsSplit(s: nat, m: nat)
    requires m > 0
    ensures Units(s, m) == ((m - 1) % 2 + 1) * Pow2(s) + Units(s + 1, (m - 1) / 2)
    ensures Units(s, m) > 0
  {
    var d := (m - 1) % 2;
    var h := (m - 1) / 2;
    SplitUnits(Pow2(s), d + 1, h);
    MulAtLeast(m, Pow2(s));
  }

  lemma DecodeNextDigit(syms: seq<nat>, tokens: seq<nat>, table: seq<nat>, s: nat, m: nat, final: seq<nat>)
    requires Decoding(syms, tokens, table, 0, 0, s, m, final) && syms != [] && m > 0
    ensures tokens != [] && tokens[0] == (m - 1) % 2
    ensures Decoding(syms, tokens[1..], table, (tokens[0] + 1) * Pow2(s), 0, s + 1, (m - 1) / 2, final)
  {
    hide Runs, Tail, FinalTable, Lead, Listed, Units, Pow2;
    UnitsSplit(s, m);
    RunsStep(m, []);
    var z := Lead(syms, table[0]);
    assert tokens == [(m - 1) % 2] + (Runs((m - 1) / 2) + Tail(syms[z..], table));
  }

  lemma NoRunLeft(syms: seq<nat>, tokens: seq<nat>, table: seq<nat>, s: nat, final: seq<nat>)
    requires Decoding(syms, tokens, table, 0, 0, s, 0, final) && syms != []
    ensures Listed(syms, table) && table != [] && syms[0] != table[0] && tokens == Tail(syms, table)
    ensures FinalTable(syms, table) == final
  {
    hide FinalTable, Tail;
    var z := Lead(syms, table[0]);
    assert Units(s, 0) == 0;
    assert z == 0 && syms[0..] == syms;
    RunsNone(Tail(syms, table));
  }

  lemma DecodeNextPlace(syms: seq<nat>, tokens: seq<nat>, table: seq<nat>, s: nat, final: seq<nat>)
    requires Decoding(syms, tokens, table, 0, 0, s, 0, final) && syms != []
    ensures tokens != [] && tokens[0] > 1
    ensures Decoding(syms, tokens[1..], table, 0, tokens[0] - 1, 0, 0, final)
  {
    NoRunLeft(syms, tokens, table, s, final);
    TailIs(syms, table);
    hide Lead, Units, Runs, FinalTable, Encode, MoveToFront, Tail, Listed;
  }

  lemma TailIs(syms: seq<nat>, table: seq<nat>)
    requires Listed(syms, table) && table != [] && syms != [] && syms[0] != table[0]
    ensures var j := Index(table, syms[0]);
            && 0 < j && Listed(syms[1..], MoveToFront(table, j))
            && Tail(syms, table) != [] && Tail(syms, table)[0] == j + 1
            && Tail(syms, table)[1..] == Encode(syms[1..], MoveToFront(table, j), 0)
  {
    hide MoveToFront, Encode;
    ListedMoved(syms[1..], table, Index(table, syms[0]));
  }

  /** Nothing is due, so another coded symbol follows: a run digit, or the place of the next symbol. */
  lemma DecodeNext(syms: seq<nat>, tokens: seq<nat>, table: seq<nat>, s: nat, m: nat, final: seq<nat>)
    requires Decoding(syms, tokens, table, 0, 0, s, m, final) && syms != []
    ensures tokens != []
    ensures tokens[0] <= 1 ==>
              m > 0 && Decoding(syms, tokens[1..], table, (tokens[0] + 1) * Pow2(s), 0, s + 1, (m - 1) / 2, final)
    ensures tokens[0] > 1 ==> Decoding(syms, tokens[1..], table, 0, tokens[0] - 1, 0, 0, final)
  {
    hide Decoding;
    if m > 0 {
      DecodeNextDigit(syms, tokens, table, s, m, final);
    } else {
      DecodeNextPlace(syms, tokens, table, s, final);
    }
  }

  lemma DecodeEnd(tokens: seq<nat>, table: seq<nat>, rep: nat, mtf: nat, s: nat, m: nat, final: seq<nat>)
    requires Decoding([], tokens, table, rep, mtf, s, m, final)
    ensures rep == 0 && tokens == [] && table == final
  {
    if m > 0 { UnitsSplit(s, m); }
    RunsNone([]);
  }

  /** The bits of a string of coded symbols. */
  function TokenBits(clen: seq<nat>, tokens: seq<nat>): seq<bool>
    requires forall k :: 0 <= k < |tokens| ==> tokens[k] < |clen|
  {
    if tokens == [] then [] else CodeBits(clen, tokens[0]) + TokenBits(clen, tokens[1..])
  }

  /** Every symbol of the string has a code that fits its length. */
  ghost predicate AllCoded(clen: seq<nat>, tokens: seq<nat>) {
    forall k :: 0 <= k < |tokens| ==>
      tokens[k] < |clen| && clen[tokens[k]] > 0 && Code(clen, tokens[k]) < Pow2(clen[tokens[k]])
  }

  lemma FirstToken(clen: seq<nat>, tokens: seq<nat>, rest: seq<bool>)
    requires AllCoded(clen, tokens) && tokens != []
    ensures AllCoded(clen, tokens[1..]) && Candidate(clen, tokens[0], TokenBits(clen, tokens) + rest)
    ensures TokenBits(clen, tokens) + rest == CodeBits(clen, tokens[0]) + (TokenBits(clen, tokens[1..]) + rest)
  {
    hide CodeBits, Code;
    Reassociate(CodeBits(clen, tokens[0]), TokenBits(clen, tokens[1..]), rest);
  }

  lemma Reassociate(a: seq<bool>, b: seq<bool>, c: seq<bool>)
    ensures a + b + c == a + (b + c) && a <= a + b + c
  {
  }

  lemma Cancel(a: seq<bool>, b: seq<bool>, c: seq<bool>)
    requires a + b == a + c
    ensures b == c
  {
    assert (a + b)[|a|..] == b && (a + c)[|a|..] == c;
  }

  /** Where the decoder stands, in its input as well. */
  ghost predicate Reading(bits: seq<bool>, clen: seq<nat>, rest: seq<bool>,
                          syms: seq<nat>, tokens: seq<nat>, table: seq<nat>, rep: nat, mtf: nat, s: nat, m: nat,
                          final: seq<nat>) {
    && AllCoded(clen, tokens) && bits == TokenBits(clen, tokens) + rest
    && Decoding(syms, tokens, table, rep, mtf, s, m, final)
  }

  /** The input starts with the coded form of `syms`. */
  ghost predicate Holds(bits: seq<bool>, clen: seq<nat>, rest: seq<bool>, syms: seq<nat>, table: seq<nat>) {
    && Listed(syms, table)
    && AllCoded(clen, Encode(syms, table, 0))
    && bits == TokenBits(clen, Encode(syms, table, 0)) + rest
  }

  /** Moves entry `mtfI` to the front and returns it. */
  method UpdateMtf(mtf: array<nat>, mtfI: nat) returns (sym: nat)
    requires mtfI < mtf.Length
    modifies mtf
    ensures sym == old(mtf[mtfI]) && mtf[..] == MoveToFront(old(mtf[..]), mtfI)
  {
    ghost var table := mtf[..];
    sym := mtf[mtfI];
    var k := mtfI;
    while k != 0
      invariant 0 <= k <= mtfI
      invariant forall i :: 0 <= i <= k ==> mtf[i] == table[i]
      invariant forall i :: k < i <= mtfI ==> mtf[i] == table[i - 1]
      invariant forall i :: mtfI < i < mtf.Length ==> mtf[i] == table[i]
    {
      mtf[k] := mtf[k - 1];
      k := k - 1;
    }
    mtf[0] := sym;
    MovedPointwise(table, mtf[..], mtfI);
  }

  /** The next coded symbol is there to be read. */
  lemma CanRead(bits: seq<bool>, clen: seq<nat>, rest: seq<bool>, syms: seq<nat>, tokens: seq<nat>,
                table: seq<nat>, s: nat, m: nat, final: seq<nat>)
    requires Reading(bits, clen, rest, syms, tokens, table, 0, 0, s, m, final) && syms != []
    ensures tokens != [] && Candidate(clen, tokens[0], bits)
  {
    hide Decoding, TokenBits, CodeBits;
    DecodeNext(syms, tokens, table, s, m, final);
    FirstToken(clen, tokens, rest);
  }

  lemma AfterRead(bits: seq<bool>, clen: seq<nat>, rest: seq<bool>, syms: seq<nat>, tokens: seq<nat>,
                  table: seq<nat>, s: nat, m: nat, final: seq<nat>, bits': seq<bool>)
    requires Reading(bits, clen, rest, syms, tokens, table, 0, 0, s, m, final) && syms != [] && tokens != []
    requires bits == CodeBits(clen, tokens[0]) + bits'
    ensures tokens[0] <= 1 ==>
              m > 0 && Reading(bits', clen, rest, syms, tokens[1..], table,
                               (tokens[0] + 1) * Pow2(s), 0, s + 1, (m - 1) / 2, final)
    ensures tokens[0] > 1 ==> Reading(bits', clen, rest, syms, tokens[1..], table, 0, tokens[0] - 1, 0, 0, final)
  {
    hide Decoding, TokenBits, CodeBits, Pow2;
    DecodeNext(syms, tokens, table, s, m, final);
    FirstToken(clen, tokens, rest);
    Cancel(CodeBits(clen, tokens[0]), bits', TokenBits(clen, tokens[1..]) + rest);
  }

  lemma ReadingStart(bits: seq<bool>, clen: seq<nat>, rest: seq<bool>, syms: seq<nat>, table: seq<nat>)
    requires Holds(bits, clen, rest, syms, table) && table != []
    ensures Listed(syms, table)
    ensures Reading(bits, clen, rest, syms, Encode(syms, table, 0), table, 0, 0, 0, Lead(syms, table[0]),
                    FinalTable(syms, table))
  {
    hide Decoding, Encode, TokenBits, FinalTable, Lead;
    DecodeStart(syms, table);
  }

  lemma ReadingRep(bits: seq<bool>, clen: seq<nat>, rest: seq<bool>, syms: seq<nat>, tokens: seq<nat>,
                   table: seq<nat>, rep: nat, s: nat, m: nat, final: seq<nat>)
    requires Reading(bits, clen, rest, syms, tokens, table, rep, 0, s, m, final) && rep > 0
    ensures syms != [] && table != [] && syms[0] == table[0]
    ensures Reading(bits, clen, rest, syms[1..], tokens, table, rep - 1, 0, s, m, final)
  {
    DecodeRep(syms, tokens, table, rep, s, m, final);
  }

  lemma ReadingMtf(bits: seq<bool>, clen: seq<nat>, rest: seq<bool>, syms: seq<nat>, tokens: seq<nat>,
                   table: seq<nat>, mtf: nat, s: nat, m: nat, final: seq<nat>)
    requires Reading(bits, clen, rest, syms, tokens, table, 0, mtf, s, m, final) && mtf != 0
    ensures mtf < |table| && syms != [] && syms[0] == table[mtf] && s == 0
    ensures var table' := MoveToFront(table, mtf);
            Reading(bits, clen, rest, syms[1..], tokens, table', 0, 0, 0, Lead(syms[1..], table'[0]), final)
  {
    assert s == 0 && m == 0;
    hide Decoding, TokenBits, MoveToFront;
    DecodeMtf(syms, tokens, table, mtf, final);
  }

  lemma ReadingEnd(bits: seq<bool>, clen: seq<nat>, rest: seq<bool>, tokens: seq<nat>,
                   table: seq<nat>, rep: nat, mtf: nat, s: nat, m: nat, final: seq<nat>)
    requires Reading(bits, clen, rest, [], tokens, table, rep, mtf, s, m, final)
    ensures rep == 0 && bits == rest && table == final
  {
    hide Decoding;
    DecodeEnd(tokens, table, rep, mtf, s, m, final);
    assert [] + rest == rest;
  }

  /**
    * Reads coded symbols and expands them. Whatever the input, it stays inside its tables; if the input is the
    * coded form of `syms`, then it produces `syms`, takes just that form, and leaves the table as the encoder did.
    * (With one group of codes the values to skip start past the last one, so nothing is ever skipped.)
    */
  method Decode12(reader: BitReader, inorder: array<nat>, base: array<nat>, limit: array<int>,
                  minLen: nat, maxLen: nat, mtfvals: array<nat>, elts: nat, values: array<nat>,
                  ghost clen: seq<nat>, ghost syms: seq<nat>, ghost rest: seq<bool>)
    returns (ok: bool)
    requires reader.Valid() && TablesFor(clen, inorder[..], base[..], limit[..], minLen, maxLen)
    requires |clen| <= 22 && |clen| <= mtfvals.Length + 1 && mtfvals.Length > 0
    requires elts <= values.Length
    requires values != mtfvals && values != inorder && values != base && mtfvals != inorder && mtfvals != base
    modifies reader`pos, reader`curByte, reader`curMask, reader`k, mtfvals, values
    ensures reader.Valid()
    ensures forall k :: 0 <= k < elts && ok ==> values[k] in multiset(old(mtfvals[..]))
    ensures Holds(old(reader.Rest()), clen, rest, syms, old(mtfvals[..])) && |syms| == elts ==>
              && ok && values[..elts] == syms && reader.Rest() == rest
              && mtfvals[..] == FinalTable(syms, old(mtfvals[..]))
  {
    hide *;
    var n: nat, rep: nat, mtf: nat, s: nat := 0, 0, 0, 0;
    ghost var good := Holds(reader.Rest(), clen, rest, syms, mtfvals[..]) && |syms| == elts;
    ghost var tokens: seq<nat> := [];
    ghost var final: seq<nat> := [];
    ghost var m: nat := 0;
    if good {
      ReadingStart(reader.Rest(), clen, rest, syms, mtfvals[..]);
      tokens := Encode(syms, mtfvals[..], 0);
      final := FinalTable(syms, mtfvals[..]);
      m := Lead(syms, mtfvals[0]);
      assert syms[0..] == syms;
    }
    while n < elts
      invariant reader.Valid() && n <= elts && mtf < mtfvals.Length && (rep == 0 || mtf == 0)
      invariant multiset(mtfvals[..]) == multiset(old(mtfvals[..]))
      invariant forall k :: 0 <= k < n ==> values[k] in multiset(old(mtfvals[..]))
      invariant good ==> n <= |syms| && values[..n] == syms[..n]
      invariant good ==> Reading(reader.Rest(), clen, rest, syms[n..], tokens, mtfvals[..], rep, mtf, s, m, final)
      decreases elts - n, |reader.Rest()|
    {
      ghost var bits := reader.Rest();
      ghost var left := if good then syms[n..] else [];
      assert good ==> syms[n + 1..] == left[1..] && left[0] == syms[n];
      if rep != 0 {
        if good { ReadingRep(bits, clen, rest, left, tokens, mtfvals[..], rep, s, m, final); }
        assert mtfvals[..][0] in multiset(mtfvals[..]);
        values[n] := mtfvals[0];
        n := n + 1;
        rep := rep - 1;
        continue;
      }
      if mtf != 0 {
        ghost var table := mtfvals[..];
        if good {
          ReadingMtf(bits, clen, rest, left, tokens, table, mtf, s, m, final);
        }
        assert table[mtf] in multiset(table);
        var sym := UpdateMtf(mtfvals, mtf);
        values[n] := sym;
        n := n + 1;
        mtf := 0;
        if good { m := Lead(left[1..], mtfvals[0]); }
        continue;
      }
      if good { CanRead(bits, clen, rest, left, tokens, mtfvals[..], s, m, final); }
      var ret;
      ret, mtf := DecodeSymbol(reader, inorder, base, limit, minLen, maxLen, 22, clen);
      if ret != Decoded {
        return false;
      }
      TakesBits(clen, mtf, bits);
      if good {
        AfterRead(bits, clen, rest, left, tokens, mtfvals[..], s, m, final, reader.Rest());
        tokens := tokens[1..];
        m := if mtf <= 1 then (m - 1) / 2 else 0;
      }
      if mtf <= 1 {
        rep := (mtf + 1) * Pow2(s);
        mtf := 0;
        s := s + 1;
      } else {
        mtf := mtf - 1;
        s := 0;
      }
    }
    ok := rep == 0;
    if good {
      assert syms[n..] == [] && syms[..n] == syms;
      ReadingEnd(reader.Rest(), clen, rest, tokens, mtfvals[..], rep, mtf, s, m, final);
    }
  }

  lemma TakesBits(clen: seq<nat>, sym: nat, bits: seq<bool>)
    requires Candidate(clen, sym, bits)
    ensures sym < |clen| && |CodeBits(clen, sym)| > 0
  {
  }

  // ---------------------------------------------------------------- no two readings

  /** Strings of as many symbols that the same bits start with are the same. */
  lemma {:induction false} TokensDetermined(clen: seq<nat>, a: seq<nat>, b: seq<nat>, restA: seq<bool>, restB: seq<bool>)
    requires AllCoded(clen, a) && AllCoded(clen, b) && |a| == |b|
    requires TokenBits(clen, a) + restA == TokenBits(clen, b) + restB
    ensures a == b && restA == restB
  {
    hide Code, CodeBits, Candidate;
    if a != [] {
      FirstToken(clen, a, restA);
      FirstToken(clen, b, restB);
      hide TokenBits;
      CandidateUnique(clen, a[0], b[0], TokenBits(clen, a) + restA);
      Cancel(CodeBits(clen, a[0]), TokenBits(clen, a[1..]) + restA, TokenBits(clen, b[1..]) + restB);
      TokensDetermined(clen, a[1..], b[1..], restA, restB);
      assert a == [a[0]] + a[1..] && b == [b[0]] + b[1..];
    } else {
      assert [] + restA == restA && [] + restB == restB;
    }
  }

  /** The decoder's position, with what it still has to produce and read. */
  datatype Course = Course(syms: seq<nat>, tokens: seq<nat>, m: nat, final: seq<nat>, rest: seq<bool>)

  ghost predicate On(bits: seq<bool>, clen: seq<nat>, c: Course, table: seq<nat>, rep: nat, mtf: nat, s: nat) {
    Reading(bits, clen, c.rest, c.syms, c.tokens, table, rep, mtf, s, c.m, c.final)
  }

  /** Two courses from the same position agree on the next coded symbol. */
  lemma SameToken(bits: seq<bool>, clen: seq<nat>, a: Course, b: Course, table: seq<nat>, s: nat)
    requires On(bits, clen, a, table, 0, 0, s) && On(bits, clen, b, table, 0, 0, s) && a.syms != [] && b.syms != []
    ensures a.tokens != [] && b.tokens != [] && a.tokens[0] == b.tokens[0]
    ensures Candidate(clen, a.tokens[0], bits)
  {
    hide Reading, Candidate;
    CanRead(bits, clen, a.rest, a.syms, a.tokens, table, s, a.m, a.final);
    CanRead(bits, clen, b.rest, b.syms, b.tokens, table, s, b.m, b.final);
    CandidateUnique(clen, a.tokens[0], b.tokens[0], bits);
  }

  function Next(c: Course): Course
    requires c.tokens != []
  {
    var t := c.tokens[0];
    c.(tokens := c.tokens[1..], m := if t <= 1 && c.m > 0 then (c.m - 1) / 2 else 0)
  }

  lemma OnNext(bits: seq<bool>, clen: seq<nat>, c: Course, table: seq<nat>, s: nat, bits': seq<bool>)
    requires On(bits, clen, c, table, 0, 0, s) && c.syms != [] && c.tokens != []
    requires bits == CodeBits(clen, c.tokens[0]) + bits'
    ensures var t := c.tokens[0];
            if t <= 1 then On(bits', clen, Next(c), table, (t + 1) * Pow2(s), 0, s + 1)
            else On(bits', clen, Next(c), table, 0, t - 1, 0)
  {
    hide Reading, CodeBits, Pow2;
    AfterRead(bits, clen, c.rest, c.syms, c.tokens, table, s, c.m, c.final, bits');
  }

  function Produced(c: Course, m: nat): Course
    requires c.syms != []
  {
    c.(syms := c.syms[1..], m := m)
  }

  lemma OnRep(bits: seq<bool>, clen: seq<nat>, c: Course, table: seq<nat>, rep: nat, s: nat)
    requires On(bits, clen, c, table, rep, 0, s) && rep > 0
    ensures c.syms != [] && table != [] && c.syms[0] == table[0]
    ensures On(bits, clen, Produced(c, c.m), table, rep - 1, 0, s)
  {
    hide Reading;
    ReadingRep(bits, clen, c.rest, c.syms, c.tokens, table, rep, s, c.m, c.final);
  }

  lemma OnMtf(bits: seq<bool>, clen: seq<nat>, c: Course, table: seq<nat>, mtf: nat, s: nat)
    requires On(bits, clen, c, table, 0, mtf, s) && mtf != 0
    ensures mtf < |table| && c.syms != [] && c.syms[0] == table[mtf]
    ensures var table' := MoveToFront(table, mtf);
            On(bits, clen, Produced(c, Lead(c.syms[1..], table'[0])), table', 0, 0, 0)
  {
    hide Reading, MoveToFront, Lead;
    ReadingMtf(bits, clen, c.rest, c.syms, c.tokens, table, mtf, s, c.m, c.final);
  }

  lemma OnEnd(bits: seq<bool>, clen: seq<nat>, c: Course, table: seq<nat>, rep: nat, mtf: nat, s: nat)
    requires On(bits, clen, c, table, rep, mtf, s) && c.syms == []
    ensures bits == c.rest
  {
    hide Reading;
    ReadingEnd(bits, clen, c.rest, c.tokens, table, rep, mtf, s, c.m, c.final);
  }

  lemma FirstAnd(a: seq<nat>, b: seq<nat>)
    requires a != [] && b != [] && a[0] == b[0] && a[1..] == b[1..]
    ensures a == b
  {
    assert a == [a[0]] + a[1..] && b == [b[0]] + b[1..];
  }

  /** Two courses from the same position that produce as many symbols produce the same ones. */
  lemma {:induction false} CourseDetermined(bits: seq<bool>, clen: seq<nat>, a: Course, b: Course,
                                            table: seq<nat>, rep: nat, mtf: nat, s: nat)
    requires On(bits, clen, a, table, rep, mtf, s) && On(bits, clen, b, table, rep, mtf, s) && |a.syms| == |b.syms|
    requires rep == 0 || mtf == 0
    ensures a.syms == b.syms && a.rest == b.rest
    decreases |a.syms|, |a.tokens|
  {
    hide On, CodeBits, Pow2, MoveToFront, Candidate, Lead;
    if a.syms == [] {
      OnEnd(bits, clen, a, table, rep, mtf, s);
      OnEnd(bits, clen, b, table, rep, mtf, s);
    } else if rep > 0 {
      OnRep(bits, clen, a, table, rep, s);
      OnRep(bits, clen, b, table, rep, s);
      CourseDetermined(bits, clen, Produced(a, a.m), Produced(b, b.m), table, rep - 1, 0, s);
      FirstAnd(a.syms, b.syms);
    } else if mtf > 0 {
      OnMtf(bits, clen, a, table, mtf, s);
      OnMtf(bits, clen, b, table, mtf, s);
      var table' := MoveToFront(table, mtf);
      CourseDetermined(bits, clen, Produced(a, Lead(a.syms[1..], table'[0])), Produced(b, Lead(b.syms[1..], table'[0])),
                       table', 0, 0, 0);
      FirstAnd(a.syms, b.syms);
    } else {
      SameToken(bits, clen, a, b, table, s);
      var t := a.tokens[0];
      var bits' := AfterCode(bits, clen, t);
      OnNext(bits, clen, a, table, s, bits');
      OnNext(bits, clen, b, table, s, bits');
      if t <= 1 {
        CourseDetermined(bits', clen, Next(a), Next(b), table, (t + 1) * Pow2(s), 0, s + 1);
      } else {
        CourseDetermined(bits', clen, Next(a), Next(b), table, 0, t - 1, 0);
      }
    }
  }

  lemma AfterCode(bits: seq<bool>, clen: seq<nat>, t: nat) returns (bits': seq<bool>)
    requires Candidate(clen, t, bits)
    ensures bits == CodeBits(clen, t) + bits'
  {
    hide CodeBits;
    bits' := bits[|CodeBits(clen, t)|..];
  }

  /** So bits are the coded form of one list of a given length at most. */
  lemma HoldsDetermines(bits: seq<bool>, clen: seq<nat>, a: seq<nat>, b: seq<nat>, restA: seq<bool>, restB: seq<bool>,
                        table: seq<nat>)
    requires Holds(bits, clen, restA, a, table) && Holds(bits, clen, restB, b, table) && |a| == |b| && table != []
    ensures a == b && restA == restB
  {
    hide Holds, Encode, Reading, FinalTable, Lead;
    ReadingStart(bits, clen, restA, a, table);
    ReadingStart(bits, clen, restB, b, table);
    var ca := Course(a, Encode(a, table, 0), Lead(a, table[0]), FinalTable(a, table), restA);
    var cb := Course(b, Encode(b, table, 0), Lead(b, table[0]), FinalTable(b, table), restB);
    CourseDetermined(bits, clen, ca, cb, table, 0, 0, 0);
  }
}
