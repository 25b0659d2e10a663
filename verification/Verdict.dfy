/** The verification verdict of a conversion: digest comparisons, and what they come to together. */
module Verdict {
  import opened Wrappers
  import opened Text

  datatype Algorithm = MD5 | SHA1 | SHA256

  datatype Selection = Selection(md5: bool, sha1: bool, sha256: bool) {
    function Algorithms(): seq<Algorithm> {
      (if md5 then [MD5] else []) + (if sha1 then [SHA1] else []) + (if sha256 then [SHA256] else [])
    }

    predicate Selects(a: Algorithm) {
      match a
      case MD5 => md5
      case SHA1 => sha1
      case SHA256 => sha256
    }
  }

  datatype Hashes = Hashes(md5: Option<string>, sha1: Option<string>, sha256: Option<string>) {
    function Get(a: Algorithm): Option<string> {
      match a
      case MD5 => md5
      case SHA1 => sha1
      case SHA256 => sha256
    }
  }

  /** What a side of a comparison is called, and its digests. */
  datatype Side = Side(name: string, hashes: Hashes)

  /** What a comparison that matched says: its two sides, and the algorithms that agree. */
  datatype Agreement = Agreement(between: string, algorithms: seq<Algorithm>)

  /** The algorithms and comparisons a result rests on stand for its wording. */
  datatype Outcome =
    | Matched(confirmed: seq<Agreement>)
    | Mismatched(methods: seq<string>, differing: seq<seq<Algorithm>>)
    | NotPossible(reason: string)
    | Failed(reason: string)

  datatype Comparison = Comparison(reference: Side, compared: Side, independent: bool, result: Outcome)

  // ---- One comparison ----

  predicate Common(s: Selection, a: Hashes, b: Hashes, alg: Algorithm) {
    s.Selects(alg) && a.Get(alg).Some? && b.Get(alg).Some?
  }

  predicate Agree(s: Selection, a: Hashes, b: Hashes, alg: Algorithm) {
    Common(s, a, b, alg) && Lower(a.Get(alg).value) == Lower(b.Get(alg).value)
  }

  predicate Disagree(s: Selection, a: Hashes, b: Hashes, alg: Algorithm) {
    Common(s, a, b, alg) && Lower(a.Get(alg).value) != Lower(b.Get(alg).value)
  }

  function Label(reference: Side, compared: Side): string {
    reference.name + " vs " + compared.name
  }

  function Rank(alg: Algorithm): nat {
    match alg
    case MD5 => 0
    case SHA1 => 1
    case SHA256 => 2
  }

  /** Each once, MD5 before SHA-1 before SHA-256. */
  predicate InOrder(algs: seq<Algorithm>) {
    forall i, j :: 0 <= i < j < |algs| ==> Rank(algs[i]) < Rank(algs[j])
  }

  lemma SelectedInOrder(s: Selection, i: nat)
    requires i < |s.Algorithms()|
    ensures forall alg :: alg in s.Algorithms()[..i] ==> Rank(alg) < Rank(s.Algorithms()[i])
  {
  }

  /** The selected algorithms that agree and that differ. */
  method CommonDigests(s: Selection, a: Hashes, b: Hashes) returns (matched: seq<Algorithm>, differing: seq<Algorithm>)
    ensures forall alg :: alg in matched <==> Agree(s, a, b, alg)
    ensures forall alg :: alg in differing <==> Disagree(s, a, b, alg)
    ensures InOrder(matched) && InOrder(differing)
  {
    hide Selection.Algorithms, Lower;
    matched, differing := [], [];
    var algs := s.Algorithms();
    for i := 0 to |algs|
      invariant forall alg :: alg in matched <==> alg in algs[..i] && Agree(s, a, b, alg)
      invariant forall alg :: alg in differing <==> alg in algs[..i] && Disagree(s, a, b, alg)
      invariant InOrder(matched) && InOrder(differing)
    {
      SelectedInOrder(s, i);
      var alg := algs[i];
      Selected(s, alg);
      if a.Get(alg).Some? && b.Get(alg).Some? {
        if Lower(a.Get(alg).value) == Lower(b.Get(alg).value) {
          matched := matched + [alg];
        } else {
          differing := differing + [alg];
        }
      }
    }
    forall alg
      ensures s.Selects(alg) <==> alg in algs[..|algs|]
    {
      Selected(s, alg);
      assert algs[..|algs|] == algs;
    }
  }

  /** Compare the selected digests both sides have. */
  method Compare(s: Selection, reference: Side, compared: Side, independent: bool) returns (c: Comparison)
    ensures c.reference == reference && c.compared == compared && c.independent == independent
    ensures c.result.Mismatched? <==> exists alg :: Disagree(s, reference.hashes, compared.hashes, alg)
    ensures c.result.Matched? <==>
              (exists alg :: Agree(s, reference.hashes, compared.hashes, alg))
              && forall alg :: !Disagree(s, reference.hashes, compared.hashes, alg)
    ensures c.result.NotPossible? <==> forall alg :: !Common(s, reference.hashes, compared.hashes, alg)
    ensures !c.result.Failed?
    ensures c.result.NotPossible? ==>
              c.result.reason == reference.name + " and " + compared.name + " have no digest in common"
    ensures c.result.Mismatched? ==> (
              && c.result.methods == [reference.name + " vs " + compared.name] && |c.result.differing| == 1
              && InOrder(c.result.differing[0])
              && forall alg :: alg in c.result.differing[0] <==> Disagree(s, reference.hashes, compared.hashes, alg))
    ensures c.result.Matched? ==> (
              && |c.result.confirmed| == 1 && c.result.confirmed[0].between == reference.name + " vs " + compared.name
              && InOrder(c.result.confirmed[0].algorithms)
              && forall alg :: alg in c.result.confirmed[0].algorithms
                          <==> Agree(s, reference.hashes, compared.hashes, alg))
  {
    var matched, differing := CommonDigests(s, reference.hashes, compared.hashes);
    forall alg
      ensures Common(s, reference.hashes, compared.hashes, alg)
          <==> alg in matched || alg in differing
    {
    }
    hide Common, Agree, Disagree;
    assert differing != [] ==> differing[0] in differing;
    assert matched != [] ==> matched[0] in matched;
    var result :=
      if differing != [] then Mismatched([Label(reference, compared)], [differing])
      else if matched == [] then NotPossible(reference.name + " and " + compared.name + " have no digest in common")
      else Matched([Agreement(Label(reference, compared), matched)]);
    c := Comparison(reference, compared, independent, result);
  }

  lemma Selected(s: Selection, alg: Algorithm)
    ensures alg in s.Algorithms() <==> s.Selects(alg)
  {
  }

  // ---- All comparisons ----

  predicate Mismatches(c: Comparison) {
    c.result.Mismatched?
  }

  predicate Confirms(c: Comparison) {
    c.independent && c.result.Matched?
  }

  function MethodsOf(cs: seq<Comparison>): seq<string> {
    if cs == [] then []
    else MethodsOf(cs[..|cs| - 1]) + if Mismatches(cs[|cs| - 1]) then cs[|cs| - 1].result.methods else []
  }

  function DifferencesOf(cs: seq<Comparison>): seq<seq<Algorithm>> {
    if cs == [] then []
    else DifferencesOf(cs[..|cs| - 1]) + if Mismatches(cs[|cs| - 1]) then cs[|cs| - 1].result.differing else []
  }

  function ConfirmedBy(cs: seq<Comparison>): seq<Agreement> {
    if cs == [] then []
    else ConfirmedBy(cs[..|cs| - 1]) + if Confirms(cs[|cs| - 1]) then cs[|cs| - 1].result.confirmed else []
  }

  /** The first independent comparison that was not possible gives the reason. */
  function ReasonOf(cs: seq<Comparison>): string {
    if cs == [] then NOTHING_INDEPENDENT
    else if cs[0].independent && cs[0].result.NotPossible? then cs[0].result.reason
    else ReasonOf(cs[1..])
  }

  /** Any mismatch wins, then a failure; a match needs an independent comparison that matches. */
  function Overall(cs: seq<Comparison>, failure: Option<string>): Outcome {
    if exists i :: 0 <= i < |cs| && Mismatches(cs[i]) then Mismatched(MethodsOf(cs), DifferencesOf(cs))
    else if failure.Some? then Failed(failure.value)
    else if exists i :: 0 <= i < |cs| && Confirms(cs[i]) then Matched(ConfirmedBy(cs))
    else NotPossible(ReasonOf(cs))
  }

  /** An image that reproduces its source still proves nothing when the source itself was in doubt. */
  function WithDoubt(verdict: Outcome, doubt: Option<string>): Outcome {
    if verdict.Matched? && doubt.Some?
    then NotPossible("the output reproduces the source image, but " + doubt.value)
    else verdict
  }

  /** The comparison says of its two sides what their digests say. */
  predicate Sound(s: Selection, c: Comparison) {
    && (c.result.Mismatched? <==> exists alg :: Disagree(s, c.reference.hashes, c.compared.hashes, alg))
    && (c.result.Matched? <==>
          (exists alg :: Agree(s, c.reference.hashes, c.compared.hashes, alg))
          && forall alg :: !Disagree(s, c.reference.hashes, c.compared.hashes, alg))
    && (c.result.Matched? ==> forall alg :: Confirmed(c.result.confirmed, alg)
                                       <==> Agree(s, c.reference.hashes, c.compared.hashes, alg))
    && (c.result.Mismatched? ==> forall alg :: Listed(c.result.differing, alg)
                                          <==> Disagree(s, c.reference.hashes, c.compared.hashes, alg))
  }

  /** A match names the algorithm. */
  predicate Confirmed(confirmed: seq<Agreement>, alg: Algorithm) {
    exists i :: 0 <= i < |confirmed| && alg in confirmed[i].algorithms
  }

  /** A mismatch names the algorithm. */
  predicate Listed(differing: seq<seq<Algorithm>>, alg: Algorithm) {
    exists i :: 0 <= i < |differing| && alg in differing[i]
  }

  /** The comparison names its two sides, and exactly the algorithms that agree or that differ. */
  predicate Labelled(s: Selection, c: Comparison) {
    && (c.result.Matched? ==> |c.result.confirmed| == 1 && Speaks(s, c, c.result.confirmed[0]))
    && (c.result.Mismatched? ==> c.result.methods == [Label(c.reference, c.compared)])
  }

  predicate Speaks(s: Selection, c: Comparison, a: Agreement) {
    && a.between == Label(c.reference, c.compared)
    && forall alg :: alg in a.algorithms <==> Agree(s, c.reference.hashes, c.compared.hashes, alg)
  }

  method CompareAll(s: Selection, pairs: seq<(Side, Side, bool)>) returns (cs: seq<Comparison>)
    ensures |cs| == |pairs|
    ensures forall i :: 0 <= i < |cs| ==> Labelled(s, cs[i])
    ensures forall i :: 0 <= i < |cs| ==>
              Sound(s, cs[i]) && (cs[i].reference, cs[i].compared, cs[i].independent) == pairs[i]
  {
    cs := [];
    for i := 0 to |pairs|
      invariant |cs| == i
      invariant forall k :: 0 <= k < i ==> Labelled(s, cs[k])
      invariant forall k :: 0 <= k < i ==>
                  Sound(s, cs[k]) && (cs[k].reference, cs[k].compared, cs[k].independent) == pairs[k]
    {
      var c := Compare(s, pairs[i].0, pairs[i].1, pairs[i].2);
      assert c.result.Matched? ==>
          forall alg :: alg in c.result.confirmed[0].algorithms ==> Confirmed(c.result.confirmed, alg);
      assert c.result.Mismatched? ==> forall alg :: alg in c.result.differing[0] ==> Listed(c.result.differing, alg);
      assert Sound(s, c) && Labelled(s, c);
      hide Sound, Labelled;
      cs := cs + [c];
    }
  }

  predicate NothingDiffers(s: Selection, cs: seq<Comparison>) {
    forall i, alg :: 0 <= i < |cs| ==> !Disagree(s, cs[i].reference.hashes, cs[i].compared.hashes, alg)
  }

  predicate SomethingConfirms(s: Selection, cs: seq<Comparison>) {
    exists i, alg :: 0 <= i < |cs| && cs[i].independent && Agree(s, cs[i].reference.hashes, cs[i].compared.hashes, alg)
  }

  /** The final verdict is a match exactly when no selected digest differs anywhere, nothing failed, the
      source was not in doubt, and an independent comparison agrees on a selected digest. */
  lemma MatchedIff(s: Selection, cs: seq<Comparison>, failure: Option<string>, doubt: Option<string>)
    requires forall i :: 0 <= i < |cs| ==> Sound(s, cs[i])
    ensures WithDoubt(Overall(cs, failure), doubt).Matched?
        <==> NothingDiffers(s, cs) && SomethingConfirms(s, cs) && failure == None && doubt == None
  {
  }

  /** The verdict is a mismatch exactly when some selected digest differs, whatever else happened. */
  lemma MismatchedIff(s: Selection, cs: seq<Comparison>, failure: Option<string>, doubt: Option<string>)
    requires forall i :: 0 <= i < |cs| ==> Sound(s, cs[i])
    ensures WithDoubt(Overall(cs, failure), doubt).Mismatched? <==> !NothingDiffers(s, cs)
  {
  }

  predicate PairsDiffer(s: Selection, pairs: seq<(Side, Side, bool)>) {
    exists i, alg :: 0 <= i < |pairs| && Disagree(s, pairs[i].0.hashes, pairs[i].1.hashes, alg)
  }

  predicate PairsConfirm(s: Selection, pairs: seq<(Side, Side, bool)>) {
    exists i, alg :: 0 <= i < |pairs| && pairs[i].2 && Agree(s, pairs[i].0.hashes, pairs[i].1.hashes, alg)
  }

  /** Compare all pairs (two sides, and whether the comparison is independent) and give the verdict. */
  method FinalVerdict(s: Selection, pairs: seq<(Side, Side, bool)>, failure: Option<string>, doubt: Option<string>)
    returns (verdict: Outcome)
    ensures verdict.Mismatched? <==> PairsDiffer(s, pairs)
    ensures verdict.Matched? <==> !PairsDiffer(s, pairs) && PairsConfirm(s, pairs) && failure == None && doubt == None
    ensures verdict.Failed? <==> !PairsDiffer(s, pairs) && failure.Some?
    ensures verdict.Matched? ==> forall alg :: Confirmed(verdict.confirmed, alg) <==> PairAgrees(s, pairs, alg)
    ensures verdict.Mismatched? ==> forall alg :: Listed(verdict.differing, alg) <==> PairDiffers(s, pairs, alg)
    ensures verdict.Matched? ==> forall a :: a in verdict.confirmed ==> OfAgreeingPair(s, pairs, a)
    ensures verdict.Mismatched? ==> forall m :: m in verdict.methods <==> OfDifferingPair(s, pairs, m)
    ensures verdict.Failed? ==> failure == Some(verdict.reason)
  {
    var cs := CompareAll(s, pairs);
    NamesArePairs(s, pairs, cs);
    MatchedIff(s, cs, failure, doubt);
    MismatchedIff(s, cs, failure, doubt);
    assert FailedIs(cs, failure, doubt);
    verdict := WithDoubt(Overall(cs, failure), doubt);
    hide Overall, WithDoubt, Sound, Confirmed, Listed, NothingDiffers, SomethingConfirms, PairsDiffer, PairsConfirm;
    hide IndependentlyAgreed, DiffersSomewhere, PairAgrees, PairDiffers;
    if verdict.Matched? {
      forall alg {
        MatchNames(s, cs, failure, doubt, alg);
      }
    } else if verdict.Mismatched? {
      forall alg {
        MismatchNames(s, cs, failure, doubt, alg);
      }
    }
    PairsAreCompared(s, pairs, cs);
  }

  lemma PairsAreCompared(s: Selection, pairs: seq<(Side, Side, bool)>, cs: seq<Comparison>)
    requires |cs| == |pairs|
    requires forall i :: 0 <= i < |cs| ==> (cs[i].reference, cs[i].compared, cs[i].independent) == pairs[i]
    ensures NothingDiffers(s, cs) <==> !PairsDiffer(s, pairs)
    ensures SomethingConfirms(s, cs) <==> PairsConfirm(s, pairs)
    ensures forall alg :: IndependentlyAgreed(s, cs, alg) <==> PairAgrees(s, pairs, alg)
    ensures forall alg :: DiffersSomewhere(s, cs, alg) <==> PairDiffers(s, pairs, alg)
  {
    hide Agree, Disagree;
  }

  /** The agreement of an independent pair that agrees, with the algorithms that do. */
  predicate OfAgreeingPair(s: Selection, pairs: seq<(Side, Side, bool)>, a: Agreement) {
    a.algorithms != []
    && exists i :: 0 <= i < |pairs| && pairs[i].2 && a.between == Label(pairs[i].0, pairs[i].1)
                   && forall alg :: alg in a.algorithms <==> Agree(s, pairs[i].0.hashes, pairs[i].1.hashes, alg)
  }

  /** The name of a pair some selected digest of which differs. */
  predicate OfDifferingPair(s: Selection, pairs: seq<(Side, Side, bool)>, m: string) {
    exists i, alg :: 0 <= i < |pairs| && m == Label(pairs[i].0, pairs[i].1)
                     && Disagree(s, pairs[i].0.hashes, pairs[i].1.hashes, alg)
  }

  lemma NamesArePairs(s: Selection, pairs: seq<(Side, Side, bool)>, cs: seq<Comparison>)
    requires |cs| == |pairs|
    requires forall i :: 0 <= i < |cs| ==> Labelled(s, cs[i])
    requires forall i :: 0 <= i < |cs| ==>
               Sound(s, cs[i]) && (cs[i].reference, cs[i].compared, cs[i].independent) == pairs[i]
    ensures forall a :: a in ConfirmedBy(cs) ==> OfAgreeingPair(s, pairs, a)
    ensures forall m :: m in MethodsOf(cs) <==> OfDifferingPair(s, pairs, m)
  {
    hide Labelled, Sound, OfAgreeingPair, OfDifferingPair, ConfirmedBy, MethodsOf;
    forall a | a in ConfirmedBy(cs)
      ensures OfAgreeingPair(s, pairs, a)
    {
      EveryMatchNamed(cs, a);
      var c :| c in cs && Confirms(c) && a in c.result.confirmed;
      MatchIsOfPair(s, pairs, cs, c, a);
    }
    forall m
      ensures m in MethodsOf(cs) <==> OfDifferingPair(s, pairs, m)
    {
      EveryMismatchNamed(cs, m, []);
      MismatchIsOfPair(s, pairs, cs, m);
    }
  }

  lemma MismatchIsOfPair(s: Selection, pairs: seq<(Side, Side, bool)>, cs: seq<Comparison>, m: string)
    requires |cs| == |pairs|
    requires forall i :: 0 <= i < |cs| ==> Labelled(s, cs[i])
    requires forall i :: 0 <= i < |cs| ==>
               Sound(s, cs[i]) && (cs[i].reference, cs[i].compared, cs[i].independent) == pairs[i]
    ensures (exists c :: c in cs && Mismatches(c) && m in c.result.methods) <==> OfDifferingPair(s, pairs, m)
  {
    forall i | 0 <= i < |cs|
      ensures Mismatches(cs[i]) <==> exists alg :: Disagree(s, pairs[i].0.hashes, pairs[i].1.hashes, alg)
      ensures Mismatches(cs[i]) ==> cs[i].result.methods == [Label(pairs[i].0, pairs[i].1)]
      ensures cs[i] in cs
    {
      assert Sound(s, cs[i]) && Labelled(s, cs[i]);
      assert pairs[i] == (cs[i].reference, cs[i].compared, cs[i].independent);
    }
    hide Disagree, Label, Sound, Labelled;
    if c :| c in cs && Mismatches(c) && m in c.result.methods {
      var i :| 0 <= i < |cs| && cs[i] == c;
      var alg :| Disagree(s, pairs[i].0.hashes, pairs[i].1.hashes, alg);
    }
  }

  lemma MatchIsOfPair(s: Selection, pairs: seq<(Side, Side, bool)>, cs: seq<Comparison>, c: Comparison, a: Agreement)
    requires |cs| == |pairs| && c in cs && Confirms(c) && a in c.result.confirmed && Labelled(s, c) && Sound(s, c)
    requires forall i :: 0 <= i < |cs| ==> (cs[i].reference, cs[i].compared, cs[i].independent) == pairs[i]
    ensures OfAgreeingPair(s, pairs, a)
  {
    hide Agree, Disagree, Label;
    var i :| 0 <= i < |cs| && cs[i] == c;
    assert Speaks(s, c, a);
    var alg :| Agree(s, c.reference.hashes, c.compared.hashes, alg);
    assert alg in a.algorithms;
    assert pairs[i] == (c.reference, c.compared, c.independent);
  }

  predicate PairAgrees(s: Selection, pairs: seq<(Side, Side, bool)>, alg: Algorithm) {
    exists i :: 0 <= i < |pairs| && pairs[i].2 && Agree(s, pairs[i].0.hashes, pairs[i].1.hashes, alg)
  }

  predicate PairDiffers(s: Selection, pairs: seq<(Side, Side, bool)>, alg: Algorithm) {
    exists i :: 0 <= i < |pairs| && Disagree(s, pairs[i].0.hashes, pairs[i].1.hashes, alg)
  }

  lemma {:induction false} ConfirmedByNames(s: Selection, cs: seq<Comparison>, alg: Algorithm)
    requires forall i :: 0 <= i < |cs| ==> Sound(s, cs[i])
    requires NothingDiffers(s, cs)
    ensures Confirmed(ConfirmedBy(cs), alg) <==> IndependentlyAgreed(s, cs, alg)
  {
    if cs != [] {
      var front, last := cs[..|cs| - 1], cs[|cs| - 1];
      assert forall i :: 0 <= i < |front| ==> front[i] == cs[i];
      ConfirmedByNames(s, front, alg);
      assert Sound(s, last) && forall a :: !Disagree(s, last.reference.hashes, last.compared.hashes, a);
      ConfirmedOr(ConfirmedBy(front), if Confirms(last) then last.result.confirmed else [], alg);
      AgreedOr(s, cs, alg);
    }
  }

  lemma ConfirmedOr(xs: seq<Agreement>, ys: seq<Agreement>, alg: Algorithm)
    ensures Confirmed(xs + ys, alg) <==> Confirmed(xs, alg) || Confirmed(ys, alg)
  {
    if i :| 0 <= i < |xs| && alg in xs[i].algorithms {
      assert (xs + ys)[i] == xs[i];
    }
    if i :| 0 <= i < |ys| && alg in ys[i].algorithms {
      assert (xs + ys)[|xs| + i] == ys[i];
    }
  }

  lemma AgreedOr(s: Selection, cs: seq<Comparison>, alg: Algorithm)
    requires cs != []
    ensures var last := cs[|cs| - 1];
            var lastAgrees := last.independent && Agree(s, last.reference.hashes, last.compared.hashes, alg);
            IndependentlyAgreed(s, cs, alg) <==> IndependentlyAgreed(s, cs[..|cs| - 1], alg) || lastAgrees
  {
    hide Agree;
    var front := cs[..|cs| - 1];
    assert forall i :: 0 <= i < |front| ==> front[i] == cs[i];
  }

  lemma {:induction false} DifferencesOfNames(s: Selection, cs: seq<Comparison>, alg: Algorithm)
    requires forall i :: 0 <= i < |cs| ==> Sound(s, cs[i])
    ensures Listed(DifferencesOf(cs), alg) <==> DiffersSomewhere(s, cs, alg)
  {
    if cs != [] {
      var front, last := cs[..|cs| - 1], cs[|cs| - 1];
      assert forall i :: 0 <= i < |front| ==> front[i] == cs[i];
      DifferencesOfNames(s, front, alg);
      assert Sound(s, last);
      ListedOr(DifferencesOf(front), if Mismatches(last) then last.result.differing else [], alg);
      DiffersOr(s, cs, alg);
    }
  }

  lemma ListedOr(xs: seq<seq<Algorithm>>, ys: seq<seq<Algorithm>>, alg: Algorithm)
    ensures Listed(xs + ys, alg) <==> Listed(xs, alg) || Listed(ys, alg)
  {
    if i :| 0 <= i < |xs| && alg in xs[i] {
      assert (xs + ys)[i] == xs[i];
    }
    if i :| 0 <= i < |ys| && alg in ys[i] {
      assert (xs + ys)[|xs| + i] == ys[i];
    }
  }

  lemma DiffersOr(s: Selection, cs: seq<Comparison>, alg: Algorithm)
    requires cs != []
    ensures var last := cs[|cs| - 1];
            var lastDiffers := Disagree(s, last.reference.hashes, last.compared.hashes, alg);
            DiffersSomewhere(s, cs, alg) <==> DiffersSomewhere(s, cs[..|cs| - 1], alg) || lastDiffers
  {
    hide Disagree;
    var front := cs[..|cs| - 1];
    assert forall i :: 0 <= i < |front| ==> front[i] == cs[i];
  }

  /** A final match names exactly the algorithms on which an independent comparison agrees. */
  lemma MatchNames(s: Selection, cs: seq<Comparison>, failure: Option<string>, doubt: Option<string>, alg: Algorithm)
    requires forall i :: 0 <= i < |cs| ==> Sound(s, cs[i])
    requires WithDoubt(Overall(cs, failure), doubt).Matched?
    ensures Confirmed(WithDoubt(Overall(cs, failure), doubt).confirmed, alg) <==> IndependentlyAgreed(s, cs, alg)
  {
    MatchedIff(s, cs, failure, doubt);
    ConfirmedByNames(s, cs, alg);
  }

  /** A final mismatch names exactly the algorithms on which some comparison differs. */
  lemma MismatchNames(s: Selection, cs: seq<Comparison>, failure: Option<string>, doubt: Option<string>, alg: Algorithm)
    requires forall i :: 0 <= i < |cs| ==> Sound(s, cs[i])
    requires WithDoubt(Overall(cs, failure), doubt).Mismatched?
    ensures Listed(WithDoubt(Overall(cs, failure), doubt).differing, alg) <==> DiffersSomewhere(s, cs, alg)
  {
    DifferencesOfNames(s, cs, alg);
  }

  predicate FailedIs(cs: seq<Comparison>, failure: Option<string>, doubt: Option<string>) {
    WithDoubt(Overall(cs, failure), doubt).Failed?
    <==> failure.Some? && !WithDoubt(Overall(cs, failure), doubt).Mismatched?
  }

  datatype Kind = IsMatched | IsMismatched | IsNotPossible | IsFailed

  function KindOf(o: Outcome): Kind {
    match o
    case Matched(_) => IsMatched
    case Mismatched(_, _) => IsMismatched
    case NotPossible(_) => IsNotPossible
    case Failed(_) => IsFailed
  }

  /** The kind of the verdict depends on which comparisons there are, not on their order or repetition. */
  lemma KindIgnoresOrder(cs: seq<Comparison>, ds: seq<Comparison>, failure: Option<string>)
    requires forall c :: c in cs <==> c in ds
    ensures KindOf(Overall(cs, failure)) == KindOf(Overall(ds, failure))
  {
    if i :| 0 <= i < |cs| && Mismatches(cs[i]) {
      assert cs[i] in ds;
    }
    if i :| 0 <= i < |ds| && Mismatches(ds[i]) {
      assert ds[i] in cs;
    }
    if i :| 0 <= i < |cs| && Confirms(cs[i]) {
      assert cs[i] in ds;
    }
    if i :| 0 <= i < |ds| && Confirms(ds[i]) {
      assert ds[i] in cs;
    }
  }

  /** How bad a verdict is; more comparisons make a match only of what was not possible. */
  function Weight(k: Kind): nat {
    match k
    case IsNotPossible => 0
    case IsMatched => 1
    case IsFailed => 2
    case IsMismatched => 3
  }

  /** More comparisons, wherever they stand in the list, never lower the verdict in the order not possible,
      matched, failed, mismatched. */
  lemma MoreNeverExcuses(cs: seq<Comparison>, ds: seq<Comparison>, failure: Option<string>)
    requires forall c :: c in cs ==> c in ds
    ensures Weight(KindOf(Overall(cs, failure))) <= Weight(KindOf(Overall(ds, failure)))
  {
    if i :| 0 <= i < |cs| && Mismatches(cs[i]) {
      assert cs[i] in ds;
    }
    if i :| 0 <= i < |cs| && Confirms(cs[i]) {
      assert cs[i] in ds;
    }
  }

  /** A mismatch names every comparison that differs, and no other. */
  lemma {:induction false} EveryMismatchNamed(cs: seq<Comparison>, m: string, d: seq<Algorithm>)
    ensures m in MethodsOf(cs) <==> exists c :: c in cs && Mismatches(c) && m in c.result.methods
    ensures d in DifferencesOf(cs) <==> exists c :: c in cs && Mismatches(c) && d in c.result.differing
  {
    if cs != [] {
      var front, last := cs[..|cs| - 1], cs[|cs| - 1];
      assert cs == front + [last];
      EveryMismatchNamed(front, m, d);
    }
  }

  /** A match names every independent comparison that matches, with what agrees in it, and no other. */
  lemma {:induction false} EveryMatchNamed(cs: seq<Comparison>, a: Agreement)
    ensures a in ConfirmedBy(cs) <==> exists c :: c in cs && Confirms(c) && a in c.result.confirmed
  {
    if cs != [] {
      var front, last := cs[..|cs| - 1], cs[|cs| - 1];
      assert cs == front + [last];
      EveryMatchNamed(front, a);
    }
  }

  /** The text of a verdict that could not be reached when no comparison gives one. */
  const NOTHING_INDEPENDENT: string := "there is no independent digest of the source image to compare the output with"

  predicate Undecided(c: Comparison) {
    c.independent && c.result.NotPossible?
  }

  /** The reason is that of the first independent comparison that was not possible, if there is one. */
  lemma {:induction false} ReasonIs(cs: seq<Comparison>) returns (i: nat)
    ensures i <= |cs| && forall j :: 0 <= j < i ==> !Undecided(cs[j])
    ensures i < |cs| ==> Undecided(cs[i]) && ReasonOf(cs) == cs[i].result.reason
    ensures i == |cs| ==> ReasonOf(cs) == NOTHING_INDEPENDENT
  {
    if cs == [] || Undecided(cs[0]) {
      i := 0;
    } else {
      var k := ReasonIs(cs[1..]);
      i := k + 1;
      assert forall j :: 0 < j <= k ==> cs[j] == cs[1..][j - 1];
    }
  }

  predicate IndependentlyAgreed(s: Selection, cs: seq<Comparison>, alg: Algorithm) {
    exists i :: 0 <= i < |cs| && cs[i].independent && Agree(s, cs[i].reference.hashes, cs[i].compared.hashes, alg)
  }

  predicate DiffersSomewhere(s: Selection, cs: seq<Comparison>, alg: Algorithm) {
    exists i :: 0 <= i < |cs| && Disagree(s, cs[i].reference.hashes, cs[i].compared.hashes, alg)
  }

  /** Both sides of an independent comparison have the selected digest. */
  predicate IndependentlyCommon(s: Selection, cs: seq<Comparison>, alg: Algorithm) {
    exists i :: 0 <= i < |cs| && cs[i].independent && Common(s, cs[i].reference.hashes, cs[i].compared.hashes, alg)
  }

  /** What a match confirms: exactly the selected digests that both sides of an independent comparison have. */
  lemma MatchConfirms(s: Selection, cs: seq<Comparison>, failure: Option<string>, doubt: Option<string>, alg: Algorithm)
    requires forall i :: 0 <= i < |cs| ==> Sound(s, cs[i])
    requires WithDoubt(Overall(cs, failure), doubt).Matched?
    ensures IndependentlyAgreed(s, cs, alg) <==> IndependentlyCommon(s, cs, alg)
  {
    MatchedIff(s, cs, failure, doubt);
    hide Lower, Overall, WithDoubt;
    if i :| 0 <= i < |cs| && cs[i].independent && Common(s, cs[i].reference.hashes, cs[i].compared.hashes, alg) {
      assert !Disagree(s, cs[i].reference.hashes, cs[i].compared.hashes, alg);
    }
  }

  /** The documented meaning of a match, that every selected digest was recomputed and is equal, holds if and
      only if an independent comparison has each selected digest on both sides. */
  lemma MatchIsOfEveryDigestIff(s: Selection, cs: seq<Comparison>, failure: Option<string>, doubt: Option<string>)
    requires forall i :: 0 <= i < |cs| ==> Sound(s, cs[i])
    requires WithDoubt(Overall(cs, failure), doubt).Matched?
    ensures (forall alg :: s.Selects(alg) ==> IndependentlyAgreed(s, cs, alg))
       <==> (forall alg :: s.Selects(alg) ==> IndependentlyCommon(s, cs, alg))
  {
    forall alg
      ensures IndependentlyAgreed(s, cs, alg) <==> IndependentlyCommon(s, cs, alg)
    {
      MatchConfirms(s, cs, failure, doubt, alg);
    }
  }

  /** One agreeing digest is enough for a match, although others that were selected are missing. */
  lemma OneDigestIsEnough(name: string, digest: string)
    ensures var s := Selection(true, true, true);
            var h := Hashes(Some(digest), None, None);
            forall c: Comparison :: Sound(s, c) && c.reference.hashes == h == c.compared.hashes && c.independent
              ==> Overall([c], None).Matched?
  {
    var s, h := Selection(true, true, true), Hashes(Some(digest), None, None);
    assert Agree(s, h, h, MD5);
    forall c: Comparison | Sound(s, c) && c.reference.hashes == h == c.compared.hashes && c.independent
      ensures Overall([c], None).Matched?
    {
      assert [c][0] == c && Confirms([c][0]);
      assert forall i :: 0 <= i < |[c]| ==> [c][i] == c;
    }
  }
}
