/**
 Container references in text: rewriting all outdated references in a file by one
 boundary-guarded substitution after another, against one simultaneous pass.
 */
module ContainerRefs {
  import opened Text

  datatype Replacement = Replacement(before: string, after: string)

  // ----- Boundaries -----

  /** The characters of the boundary classes. */
  predicate IsBoundaryChar(c: char) {
    IsWord(c) || c == '.' || c == ':' || c == '/' || c == '@' || c == '-'
  }

  /** The leading boundary holds at `i`. */
  predicate Begins(text: string, i: nat)
    requires i <= |text|
  {
    i == 0 || !IsBoundaryChar(text[i - 1])
  }

  /** The trailing boundary holds at `i`. */
  predicate Stops(text: string, i: nat)
    requires i <= |text|
  {
    i == |text| || !IsBoundaryChar(text[i]) || (text[i] == '.' && !(i + 1 < |text| && IsWord(text[i + 1])))
  }

  /** Only reference characters, and every dot is followed by a letter, digit or underscore. */
  predicate IsRef(r: string) {
    r != "" && forall k :: 0 <= k < |r| ==> !Stops(r, k)
  }

  // ----- One substitution -----

  /** The pattern of `before` matches at `i`. */
  predicate MatchesRef(text: string, i: nat, before: string)
    requires i <= |text|
  {
    Begins(text, i) && i + |before| <= |text| && text[i..i + |before|] == before && Stops(text, i + |before|)
  }

  /** The text from `i` on, after substituting every match from left to right. */
  function Substitute(text: string, i: nat, r: Replacement): string
    requires i <= |text| && r.before != ""
    decreases |text| - i
  {
    if i == |text| then ""
    else if MatchesRef(text, i, r.before) then r.after + Substitute(text, i + |r.before|, r)
    else [text[i]] + Substitute(text, i + 1, r)
  }

  // ----- One simultaneous pass -----

  /** The end of the reference run that starts at `i`. */
  function RunEnd(text: string, i: nat): (e: nat)
    requires i <= |text|
    ensures i <= e <= |text| && Stops(text, e) && forall k :: i <= k < e ==> !Stops(text, k)
    decreases |text| - i
  {
    if Stops(text, i) then i else RunEnd(text, i + 1)
  }

  function Look(m: map<string, string>, run: string): string {
    if run in m then m[run] else run
  }

  /** The text from `i` on, with every maximal run looked up once. */
  function Rewrite(text: string, i: nat, m: map<string, string>): string
    requires i <= |text|
    decreases |text| - i
  {
    if i == |text| then ""
    else if Begins(text, i) && !Stops(text, i) then
      var e := RunEnd(text, i);
      Look(m, text[i..e]) + Rewrite(text, e, m)
    else [text[i]] + Rewrite(text, i + 1, m)
  }

  /** The maximal runs from `i` on. */
  function Runs(text: string, i: nat): seq<string>
    requires i <= |text|
    decreases |text| - i
  {
    if i == |text| then []
    else if Begins(text, i) && !Stops(text, i) then
      var e := RunEnd(text, i);
      [text[i..e]] + Runs(text, e)
    else Runs(text, i + 1)
  }

  predicate RunAt(text: string, i: nat, e: nat) {
    i < e <= |text| && Begins(text, i) && !Stops(text, i) && RunEnd(text, i) == e
  }

  lemma RewriteRun(text: string, i: nat, e: nat, m: map<string, string>)
    requires RunAt(text, i, e)
    ensures Rewrite(text, i, m) == Look(m, text[i..e]) + Rewrite(text, e, m)
    ensures Runs(text, i) == [text[i..e]] + Runs(text, e)
  {
  }

  lemma RewriteCopy(text: string, i: nat, m: map<string, string>)
    requires i < |text| && (!Begins(text, i) || Stops(text, i))
    ensures Rewrite(text, i, m) == [text[i]] + Rewrite(text, i + 1, m) && Runs(text, i) == Runs(text, i + 1)
  {
  }

  // ----- A substitution is a pass -----

  lemma RunIsRef(text: string, i: nat)
    requires i <= |text| && !Stops(text, i)
    ensures var e := RunEnd(text, i); i < e && IsRef(text[i..e]) && IsBoundaryChar(text[e - 1])
  {
    var e := RunEnd(text, i);
    var run := text[i..e];
    forall k | 0 <= k < |run| ensures !Stops(run, k) {
      assert !Stops(text, i + k) && run[k] == text[i + k];
      if k + 1 < |run| { assert run[k + 1] == text[i + k + 1]; }
    }
    assert !Stops(text, e - 1);
  }

  lemma RunEndIs(text: string, i: nat, e: nat)
    requires i <= e <= |text| && Stops(text, e) && forall k :: i <= k < e ==> !Stops(text, k)
    ensures RunEnd(text, i) == e
  {
  }

  lemma RefInText(text: string, i: nat, r: string)
    requires IsRef(r) && i + |r| <= |text| && text[i..i + |r|] == r
    ensures forall k :: i <= k < i + |r| ==> !Stops(text, k)
    ensures IsBoundaryChar(text[i + |r| - 1])
  {
    forall k | i <= k < i + |r| ensures !Stops(text, k) && text[k] == r[k - i] {
      assert !Stops(r, k - i) && r[k - i] == text[k];
      if k + 1 < i + |r| { assert r[k - i + 1] == text[k + 1]; }
    }
    assert !Stops(r, |r| - 1);
  }

  /** Where a run can begin, a reference matches exactly when it is the whole run. */
  lemma MatchIsWholeRun(text: string, i: nat, before: string)
    requires i < |text| && Begins(text, i) && IsRef(before)
    ensures MatchesRef(text, i, before) <==> !Stops(text, i) && text[i..RunEnd(text, i)] == before
  {
    if MatchesRef(text, i, before) {
      RefInText(text, i, before);
      RunEndIs(text, i, i + |before|);
    }
  }

  /** Inside a run nothing is substituted. */
  lemma {:induction false} SubstituteSkips(text: string, i: nat, e: nat, r: Replacement)
    requires i <= e <= |text| && r.before != "" && forall k :: i <= k < e ==> !Begins(text, k)
    ensures Substitute(text, i, r) == text[i..e] + Substitute(text, e, r)
    decreases e - i
  {
    if i < e {
      SubstituteSkips(text, i + 1, e, r);
      assert text[i..e] == [text[i]] + text[i + 1..e];
    }
  }

  lemma InsideRun(text: string, i: nat, e: nat)
    requires RunAt(text, i, e)
    ensures forall k :: i + 1 <= k < e ==> !Begins(text, k)
  {
    forall k | i + 1 <= k < e ensures !Begins(text, k) { assert !Stops(text, k - 1); }
  }

  lemma SubstituteOtherRun(text: string, i: nat, e: nat, r: Replacement)
    requires RunAt(text, i, e) && r.before != "" && !MatchesRef(text, i, r.before)
    ensures Substitute(text, i, r) == text[i..e] + Substitute(text, e, r)
  {
    InsideRun(text, i, e);
    SubstituteSkips(text, i + 1, e, r);
    assert text[i..e] == [text[i]] + text[i + 1..e];
    PrependAssociates(text[i], text[i + 1..e], Substitute(text, e, r));
  }

  lemma SubstituteRun(text: string, i: nat, e: nat, r: Replacement)
    requires RunAt(text, i, e) && IsRef(r.before)
    ensures Substitute(text, i, r) == Look(map[r.before := r.after], text[i..e]) + Substitute(text, e, r)
  {
    MatchIsWholeRun(text, i, r.before);
    if !MatchesRef(text, i, r.before) {
      SubstituteOtherRun(text, i, e, r);
    }
  }

  lemma SubstituteCopy(text: string, i: nat, r: Replacement)
    requires i < |text| && (!Begins(text, i) || Stops(text, i)) && IsRef(r.before)
    ensures Substitute(text, i, r) == [text[i]] + Substitute(text, i + 1, r)
  {
    if Begins(text, i) { MatchIsWholeRun(text, i, r.before); }
  }

  lemma SubstituteIsRewriteHere(text: string, i: nat, e: nat, r: Replacement, m: map<string, string>)
    requires i < |text| && IsRef(r.before) && m == map[r.before := r.after]
    requires if Begins(text, i) && !Stops(text, i) then RunAt(text, i, e) else e == i + 1
    requires Substitute(text, e, r) == Rewrite(text, e, m)
    ensures Substitute(text, i, r) == Rewrite(text, i, m)
  {
    if Begins(text, i) && !Stops(text, i) {
      SubstituteRun(text, i, e, r);
      RewriteRun(text, i, e, m);
    } else {
      SubstituteCopy(text, i, r);
      RewriteCopy(text, i, m);
    }
  }

  /** The substitution of one reference is the pass that looks up just this reference. */
  lemma {:induction false} SubstituteIsRewrite(text: string, i: nat, r: Replacement)
    requires i <= |text| && IsRef(r.before)
    ensures Substitute(text, i, r) == Rewrite(text, i, map[r.before := r.after])
    decreases |text| - i
  {
    if i < |text| {
      var e := i + 1;
      if Begins(text, i) && !Stops(text, i) {
        e := RunEnd(text, i);
        RunIsRef(text, i);
      }
      SubstituteIsRewrite(text, e, r);
      SubstituteIsRewriteHere(text, i, e, r, map[r.before := r.after]);
    }
  }

  // ----- Passes compose -----

  predicate AllRefs(m: map<string, string>) {
    forall run :: run in m ==> IsRef(m[run])
  }

  /** Right after a run a pass copies what decides where the run stops. */
  lemma RewriteKeepsStop(text: string, e: nat, m: map<string, string>, output: string, p: nat)
    requires e <= |text| && Stops(text, e) && !Begins(text, e)
    requires p <= |output| && output[p..] == Rewrite(text, e, m)
    ensures Stops(output, p)
  {
  }

  /** In the output, the image of a run is again a maximal run. */
  lemma ImageIsRun(text: string, i: nat, m: map<string, string>, output: string, p: nat)
    requires i <= |text| && Begins(text, i) && !Stops(text, i) && AllRefs(m)
    requires p <= |output| && output[p..] == Rewrite(text, i, m)
    ensures var e := RunEnd(text, i);
            var image := Look(m, text[i..e]);
            IsRef(image) && p + |image| <= |output| && (Begins(output, p) ==> RunAt(output, p, p + |image|)) &&
            output[p..p + |image|] == image && output[p + |image|..] == Rewrite(text, e, m) &&
            !Begins(output, p + |image|)
  {
    var e := RunEnd(text, i);
    RunIsRef(text, i);
    var image := Look(m, text[i..e]);
    var q := p + |image|;
    assert output[p..][..|image|] == image && output[p..][|image|..] == Rewrite(text, e, m);
    assert output[p..q] == image && output[q..] == Rewrite(text, e, m);
    RefInText(output, p, image);
    RewriteKeepsStop(text, e, m, output, q);
    RunEndIs(output, p, q);
  }

  /** Outside runs a pass copies, and what it copied does not begin a run either. */
  lemma CopyStaysOutside(text: string, i: nat, m: map<string, string>, output: string, p: nat)
    requires i < |text| && (!Begins(text, i) || Stops(text, i))
    requires p <= |output| && output[p..] == Rewrite(text, i, m) && Begins(output, p) == Begins(text, i)
    ensures p < |output| && output[p] == text[i] && output[p + 1..] == Rewrite(text, i + 1, m)
    ensures !Begins(output, p) || Stops(output, p)
    ensures Begins(output, p + 1) == Begins(text, i + 1)
  {
  }

  /** `both` is looking up in `first` and then in `second`. */
  ghost predicate Composes(first: map<string, string>, second: map<string, string>, both: map<string, string>) {
    forall run: string :: Look(both, run) == Look(second, Look(first, run))
  }

  lemma RewriteTwiceRun(text: string, i: nat, e: nat, output: string, p: nat, q: nat,
                        first: map<string, string>, second: map<string, string>, both: map<string, string>)
    requires Composes(first, second, both) && RunAt(text, i, e) && RunAt(output, p, q)
    requires output[p..q] == Look(first, text[i..e]) && Rewrite(output, q, second) == Rewrite(text, e, both)
    ensures Rewrite(output, p, second) == Rewrite(text, i, both)
  {
  }

  lemma RewriteTwiceCopy(text: string, i: nat, output: string, p: nat, second: map<string, string>,
                         both: map<string, string>)
    requires i < |text| && (!Begins(text, i) || Stops(text, i))
    requires p < |output| && (!Begins(output, p) || Stops(output, p))
    requires output[p] == text[i] && Rewrite(output, p + 1, second) == Rewrite(text, i + 1, both)
    ensures Rewrite(output, p, second) == Rewrite(text, i, both)
  {
  }

  /** A run of the text and its image in the output, both maximal. */
  ghost predicate RunPair(text: string, i: nat, e: nat, m: map<string, string>, output: string, p: nat, q: nat) {
    && RunAt(text, i, e) && RunAt(output, p, q) && output[p..q] == Look(m, text[i..e])
    && output[q..] == Rewrite(text, e, m) && Begins(text, e) == Begins(output, q)
  }

  lemma PairRuns(text: string, i: nat, m: map<string, string>, output: string, p: nat) returns (e: nat, q: nat)
    requires i <= |text| && Begins(text, i) && !Stops(text, i) && AllRefs(m)
    requires p <= |output| && output[p..] == Rewrite(text, i, m) && Begins(output, p)
    ensures RunPair(text, i, e, m, output, p, q)
  {
    e := RunEnd(text, i);
    RunIsRef(text, i);
    q := p + |Look(m, text[i..e])|;
    ImageIsRun(text, i, m, output, p);
  }

  lemma {:induction false} RewriteTwice(text: string, i: nat, output: string, p: nat,
                                        first: map<string, string>, second: map<string, string>,
                                        both: map<string, string>)
    requires AllRefs(first) && Composes(first, second, both) && i <= |text| && p <= |output|
    requires output[p..] == Rewrite(text, i, first) && Begins(output, p) == Begins(text, i)
    ensures Rewrite(output, p, second) == Rewrite(text, i, both)
    decreases |text| - i
  {
    if i < |text| {
      if Begins(text, i) && !Stops(text, i) {
        var e, q := PairRuns(text, i, first, output, p);
        RewriteTwice(text, e, output, q, first, second, both);
        RewriteTwiceRun(text, i, e, output, p, q, first, second, both);
      } else {
        CopyStaysOutside(text, i, first, output, p);
        RewriteTwice(text, i + 1, output, p + 1, first, second, both);
        RewriteTwiceCopy(text, i, output, p, second, both);
      }
    }
  }

  lemma RewritesCompose(text: string, first: map<string, string>, second: map<string, string>,
                        both: map<string, string>)
    requires AllRefs(first) && Composes(first, second, both)
    ensures Rewrite(Rewrite(text, 0, first), 0, second) == Rewrite(text, 0, both)
  {
    var output := Rewrite(text, 0, first);
    assert output[0..] == output;
    RewriteTwice(text, 0, output, 0, first, second, both);
  }

  function Images(runs: seq<string>, m: map<string, string>): seq<string> {
    if runs == [] then [] else [Look(m, runs[0])] + Images(runs[1..], m)
  }

  lemma RunsOfRun(text: string, i: nat, e: nat, output: string, p: nat, q: nat, m: map<string, string>)
    requires RunAt(text, i, e) && RunAt(output, p, q) && output[p..q] == Look(m, text[i..e])
    requires Runs(output, q) == Images(Runs(text, e), m)
    ensures Runs(output, p) == Images(Runs(text, i), m)
  {
  }

  lemma RunsOfCopy(text: string, i: nat, output: string, p: nat, m: map<string, string>)
    requires i < |text| && (!Begins(text, i) || Stops(text, i)) && p < |output| &&
             (!Begins(output, p) || Stops(output, p))
    requires Runs(output, p + 1) == Images(Runs(text, i + 1), m)
    ensures Runs(output, p) == Images(Runs(text, i), m)
  {
  }

  /** A pass changes the runs of the text and nothing else about them. */
  lemma {:induction false} RunsOfRewrite(text: string, i: nat, output: string, p: nat, m: map<string, string>)
    requires AllRefs(m) && i <= |text| && p <= |output|
    requires output[p..] == Rewrite(text, i, m) && Begins(output, p) == Begins(text, i)
    ensures Runs(output, p) == Images(Runs(text, i), m)
    decreases |text| - i
  {
    if i < |text| {
      if Begins(text, i) && !Stops(text, i) {
        var e, q := PairRuns(text, i, m, output, p);
        RunsOfRewrite(text, e, output, q, m);
        RunsOfRun(text, i, e, output, p, q, m);
      } else {
        CopyStaysOutside(text, i, m, output, p);
        RunsOfRewrite(text, i + 1, output, p + 1, m);
        RunsOfCopy(text, i, output, p, m);
      }
    }
  }

  lemma CopiedRun(text: string, i: nat, e: nat, m: map<string, string>)
    requires RunAt(text, i, e) && Look(m, text[i..e]) == text[i..e] && Rewrite(text, e, m) == text[e..]
    ensures Rewrite(text, i, m) == text[i..]
  {
  }

  lemma CopiedChar(text: string, i: nat, m: map<string, string>)
    requires i < |text| && (!Begins(text, i) || Stops(text, i)) && Rewrite(text, i + 1, m) == text[i + 1..]
    ensures Rewrite(text, i, m) == text[i..]
  {
  }

  /** A pass that finds none of its runs copies the text. */
  lemma {:induction false} RewriteWithoutRuns(text: string, i: nat, m: map<string, string>)
    requires i <= |text| && forall run :: run in Runs(text, i) ==> Look(m, run) == run
    ensures Rewrite(text, i, m) == text[i..]
    decreases |text| - i
  {
    if i < |text| {
      if Begins(text, i) && !Stops(text, i) {
        var e := RunEnd(text, i);
        RunIsRef(text, i);
        assert text[i..e] == Runs(text, i)[0];
        RewriteWithoutRuns(text, e, m);
        CopiedRun(text, i, e, m);
      } else {
        RewriteWithoutRuns(text, i + 1, m);
        CopiedChar(text, i, m);
      }
    }
  }

  // ----- All references of a file -----

  /** The text after substituting one reference after another, in this order. */
  function Sequential(text: string, rs: seq<Replacement>): string
    requires forall k :: 0 <= k < |rs| ==> rs[k].before != ""
  {
    if rs == [] then text else Substitute(Sequential(text, rs[..|rs| - 1]), 0, rs[|rs| - 1])
  }

  function AsMap(rs: seq<Replacement>): map<string, string> {
    if rs == [] then map[] else AsMap(rs[..|rs| - 1])[rs[|rs| - 1].before := rs[|rs| - 1].after]
  }

  /** The text after one pass that looks every maximal run up once. */
  function Simultaneous(text: string, rs: seq<Replacement>): string {
    Rewrite(text, 0, AsMap(rs))
  }

  /** What a dictionary of references to new references is: references all, old ones distinct,
      none replaced by itself. */
  ghost predicate ProperReplacements(rs: seq<Replacement>) {
    && (forall k :: 0 <= k < |rs| ==> IsRef(rs[k].before) && IsRef(rs[k].after) && rs[k].before != rs[k].after)
    && (forall a, b :: 0 <= a < b < |rs| ==> rs[a].before != rs[b].before)
  }

  /** No new reference is the old one of a later substitution. */
  ghost predicate NoForwardChain(rs: seq<Replacement>) {
    forall a, b :: 0 <= a < b < |rs| ==> rs[a].after != rs[b].before
  }

  lemma {:induction false} AsMapHolds(rs: seq<Replacement>)
    requires ProperReplacements(rs)
    ensures AllRefs(AsMap(rs))
    ensures forall run :: run in AsMap(rs) <==> exists k :: 0 <= k < |rs| && rs[k].before == run
    ensures forall k :: 0 <= k < |rs| ==> AsMap(rs)[rs[k].before] == rs[k].after
  {
    if rs != [] {
      var rest, last := rs[..|rs| - 1], rs[|rs| - 1];
      AsMapHolds(rest);
      assert forall k :: 0 <= k < |rest| ==> rs[k] == rest[k];
      forall run ensures run in AsMap(rs) <==> exists k :: 0 <= k < |rs| && rs[k].before == run {
        if run in AsMap(rest) {
          var k :| 0 <= k < |rest| && rest[k].before == run;
          assert rs[k].before == run;
        }
        assert rs[|rs| - 1].before == last.before;
      }
    }
  }

  /** Without a forward chain, the sequential substitution of all references is one simultaneous
      pass over the maximal runs. */
  lemma {:induction false} SequentialIsSimultaneous(text: string, rs: seq<Replacement>)
    requires ProperReplacements(rs) && NoForwardChain(rs)
    ensures Sequential(text, rs) == Simultaneous(text, rs)
  {
    if rs == [] {
      RewriteWithoutRuns(text, 0, map[]);
    } else {
      var rest, last := rs[..|rs| - 1], rs[|rs| - 1];
      SequentialIsSimultaneous(text, rest);
      AsMapHolds(rest);
      SubstituteIsRewrite(Sequential(text, rest), 0, last);
      ChainlessComposes(rs);
      RewritesCompose(text, AsMap(rest), map[last.before := last.after], AsMap(rs));
    }
  }

  /** Without a forward chain, what an earlier substitution wrote is not replaced by the last. */
  lemma LastFindsNoImage(rs: seq<Replacement>, run: string)
    requires rs != [] && ProperReplacements(rs) && NoForwardChain(rs) && run in AsMap(rs[..|rs| - 1])
    ensures run != rs[|rs| - 1].before && AsMap(rs[..|rs| - 1])[run] != rs[|rs| - 1].before
  {
    var rest := rs[..|rs| - 1];
    AsMapHolds(rest);
    var k :| 0 <= k < |rest| && rest[k].before == run;
    assert rest[k] == rs[k] && rs[k].after != rs[|rs| - 1].before;
  }

  lemma ChainlessComposes(rs: seq<Replacement>)
    requires rs != [] && ProperReplacements(rs) && NoForwardChain(rs)
    ensures var last := rs[|rs| - 1];
            Composes(AsMap(rs[..|rs| - 1]), map[last.before := last.after], AsMap(rs))
  {
    var m, last := AsMap(rs[..|rs| - 1]), rs[|rs| - 1];
    forall run: string ensures Look(AsMap(rs), run) == Look(map[last.before := last.after], Look(m, run)) {
      if run in m { LastFindsNoImage(rs, run); }
    }
  }

  // ----- Exactly when the two agree -----

  lemma SubstituteWholeRef(t: string, r: Replacement)
    requires IsRef(t) && IsRef(r.before)
    ensures Substitute(t, 0, r) == if t == r.before then r.after else t
  {
    SubstituteIsRewrite(t, 0, r);
    RewriteWholeRef(t, map[r.before := r.after]);
  }

  lemma RewriteWholeRef(t: string, m: map<string, string>)
    requires IsRef(t)
    ensures Rewrite(t, 0, m) == Look(m, t)
  {
    RunEndIs(t, 0, |t|);
    RewriteRun(t, 0, |t|, m);
    assert t[0..|t|] == t;
  }

  ghost predicate ChainAt(rs: seq<Replacement>, a: int, b: int) {
    0 <= a < b < |rs| && rs[a].after == rs[b].before
  }

  lemma LastChain(rs: seq<Replacement>) returns (a: int, b: int)
    requires !NoForwardChain(rs)
    ensures ChainAt(rs, a, b) && forall c, d :: ChainAt(rs, c, d) ==> d <= b
  {
    var c0, d0 :| 0 <= c0 < d0 < |rs| && rs[c0].after == rs[d0].before;
    a, b := c0, d0;
    while exists c, d :: ChainAt(rs, c, d) && d > b
      invariant ChainAt(rs, a, b)
      decreases |rs| - b
    {
      var c, d :| ChainAt(rs, c, d) && d > b;
      a, b := c, d;
    }
  }

  lemma SequentialStep(t: string, rs: seq<Replacement>, n: nat, reached: string)
    requires ProperReplacements(rs) && n < |rs| && IsRef(reached) && reached == Sequential(t, rs[..n])
    ensures Sequential(t, rs[..n + 1]) == if reached == rs[n].before then rs[n].after else reached
  {
    assert rs[..n + 1][..n] == rs[..n];
    SubstituteWholeRef(reached, rs[n]);
  }

  /** Where the first reference of the chain from `a` to `b` has got after `n` substitutions. */
  function Chained(rs: seq<Replacement>, a: nat, b: nat, n: nat): string
    requires a < b < |rs|
  {
    if n <= a then rs[a].before else if n <= b then rs[a].after else rs[b].after
  }

  lemma ChainStep(rs: seq<Replacement>, a: nat, b: nat, n: nat)
    requires ProperReplacements(rs) && ChainAt(rs, a, b) && n < |rs|
    requires n > b ==> !ChainAt(rs, b, n)
    ensures IsRef(Chained(rs, a, b, n))
    ensures var t := Chained(rs, a, b, n); Chained(rs, a, b, n + 1) == if t == rs[n].before then rs[n].after else t
  {
  }

  lemma ChainAdvances(rs: seq<Replacement>, a: nat, b: nat, n: nat)
    requires ProperReplacements(rs) && ChainAt(rs, a, b) && n < |rs|
    requires n > b ==> !ChainAt(rs, b, n)
    requires Sequential(rs[a].before, rs[..n]) == Chained(rs, a, b, n)
    ensures Sequential(rs[a].before, rs[..n + 1]) == Chained(rs, a, b, n + 1)
  {
    ChainStep(rs, a, b, n);
    SequentialStep(rs[a].before, rs, n, Chained(rs, a, b, n));
  }

  /** The first reference of the chain that ends last is rewritten twice. */
  lemma {:induction false} ChainRewritesTwice(rs: seq<Replacement>, a: nat, b: nat, n: nat)
    requires ProperReplacements(rs) && ChainAt(rs, a, b) && n <= |rs|
    requires forall c, d :: ChainAt(rs, c, d) ==> d <= b
    ensures Sequential(rs[a].before, rs[..n]) == Chained(rs, a, b, n)
  {
    if n > 0 {
      ChainRewritesTwice(rs, a, b, n - 1);
      ChainAdvances(rs, a, b, n - 1);
    }
  }

  /** The sequential substitution equals the simultaneous pass on every text if and only if no
      new reference is the old one of a later substitution. */
  lemma SequentialIsSimultaneousIff(rs: seq<Replacement>)
    requires ProperReplacements(rs)
    ensures (forall text :: Sequential(text, rs) == Simultaneous(text, rs)) <==> NoForwardChain(rs)
  {
    if NoForwardChain(rs) {
      forall text ensures Sequential(text, rs) == Simultaneous(text, rs) { SequentialIsSimultaneous(text, rs); }
    } else {
      var a, b := LastChain(rs);
      ChainRewritesTwice(rs, a, b, |rs|);
      assert rs[..|rs|] == rs;
      AsMapHolds(rs);
      RewriteWholeRef(rs[a].before, AsMap(rs));
      assert Sequential(rs[a].before, rs) != Simultaneous(rs[a].before, rs);
    }
  }

  /** The order in which the updater substitutes. */
  ghost predicate LongestFirst(rs: seq<Replacement>) {
    forall a, b :: 0 <= a < b < |rs| ==> |rs[a].before| >= |rs[b].before|
  }

  /** A new reference that is an old one and is longer than the one it replaces, or as long and later in
      the list, is an old one that has been substituted already. */
  ghost predicate ChainsBackward(rs: seq<Replacement>) {
    forall a, b :: 0 <= a < |rs| && 0 <= b < |rs| && rs[a].after == rs[b].before ==>
      |rs[a].after| > |rs[a].before| || (|rs[a].after| == |rs[a].before| && b < a)
  }

  /** Substituting longest first equals the simultaneous pass on every text if and only if no reference
      is replaced by a shorter one, or one as long that comes later, that is replaced itself. */
  lemma LongestFirstIff(rs: seq<Replacement>)
    requires ProperReplacements(rs) && LongestFirst(rs)
    ensures (forall text :: Sequential(text, rs) == Simultaneous(text, rs)) <==> ChainsBackward(rs)
  {
    SequentialIsSimultaneousIff(rs);
    if NoForwardChain(rs) {
      forall a, b | 0 <= a < |rs| && 0 <= b < |rs| && rs[a].after == rs[b].before
        ensures |rs[a].after| > |rs[a].before| || (|rs[a].after| == |rs[a].before| && b < a)
      {
        assert a != b && !(a < b);
      }
    }
  }

  /** No new reference is itself an old one. */
  ghost predicate Chainless(rs: seq<Replacement>) {
    forall a, b :: 0 <= a < |rs| && 0 <= b < |rs| ==> rs[a].after != rs[b].before
  }

  lemma Replaced(rs: seq<Replacement>, run: string) returns (r: Replacement)
    requires ProperReplacements(rs) && run in AsMap(rs)
    ensures r in rs && r.before == run && r.after == AsMap(rs)[run]
  {
    AsMapHolds(rs);
    var k :| 0 <= k < |rs| && rs[k].before == run;
    r := rs[k];
  }

  lemma MapHolds(rs: seq<Replacement>, r: Replacement)
    requires ProperReplacements(rs) && r in rs
    ensures r.before in AsMap(rs) && AsMap(rs)[r.before] == r.after
  {
    AsMapHolds(rs);
    var k :| 0 <= k < |rs| && rs[k] == r;
  }

  lemma SameMap(rs: seq<Replacement>, other: seq<Replacement>)
    requires ProperReplacements(rs) && ProperReplacements(other) && forall r :: r in rs <==> r in other
    ensures AsMap(rs) == AsMap(other)
  {
    forall run: string | run in AsMap(rs) ensures run in AsMap(other) && AsMap(other)[run] == AsMap(rs)[run] {
      var r := Replaced(rs, run);
      MapHolds(other, r);
    }
    forall run: string | run in AsMap(other) ensures run in AsMap(rs) {
      var r := Replaced(other, run);
      MapHolds(rs, r);
    }
  }

  lemma ReorderedChainless(rs: seq<Replacement>, other: seq<Replacement>)
    requires Chainless(rs) && forall r :: r in rs <==> r in other
    ensures NoForwardChain(rs) && NoForwardChain(other)
  {
    forall a, b | 0 <= a < b < |other| ensures other[a].after != other[b].before {
      assert other[a] in rs && other[b] in rs;
    }
  }

  /** Then the order of the substitutions, longest first or any other, does not matter. */
  lemma OrderDoesNotMatter(text: string, rs: seq<Replacement>, other: seq<Replacement>)
    requires ProperReplacements(rs) && ProperReplacements(other) && Chainless(rs)
    requires forall r :: r in rs <==> r in other
    ensures Sequential(text, rs) == Sequential(text, other)
  {
    SameMap(rs, other);
    ReorderedChainless(rs, other);
    SequentialIsSimultaneous(text, rs);
    SequentialIsSimultaneous(text, other);
  }

  /** And rewriting the rewritten text changes nothing. */
  lemma RewritingAgainChangesNothing(text: string, rs: seq<Replacement>)
    requires ProperReplacements(rs) && Chainless(rs)
    ensures Sequential(Sequential(text, rs), rs) == Sequential(text, rs)
  {
    var m := AsMap(rs);
    AsMapHolds(rs);
    forall run: string ensures Look(m, run) == Look(m, Look(m, run)) {
      if run in m {
        var k :| 0 <= k < |rs| && rs[k].before == run;
        assert m[run] !in m;
      }
    }
    RewritesCompose(text, m, m, m);
    SequentialIsSimultaneous(text, rs);
    SequentialIsSimultaneous(Sequential(text, rs), rs);
  }

  // ----- The loop over the references -----

  /** The substitutions whose old reference stands in the text. */
  function Occurring(text: string, rs: seq<Replacement>): seq<Replacement> {
    if rs == [] then []
    else Occurring(text, rs[..|rs| - 1]) + if rs[|rs| - 1].before in Runs(text, 0) then [rs[|rs| - 1]] else []
  }

  /** The substitutions that change the text when their turn comes. */
  function Changing(text: string, rs: seq<Replacement>): seq<Replacement>
    requires forall k :: 0 <= k < |rs| ==> rs[k].before != ""
  {
    if rs == [] then []
    else
      var rest, last := rs[..|rs| - 1], rs[|rs| - 1];
      var reached := Sequential(text, rest);
      Changing(text, rest) + if Substitute(reached, 0, last) != reached then [last] else []
  }

  lemma {:induction false} ImagesHold(runs: seq<string>, m: map<string, string>, image: string)
    ensures image in Images(runs, m) <==> exists run :: run in runs && Look(m, run) == image
  {
    if runs != [] {
      ImagesHold(runs[1..], m, image);
      assert forall run :: run in runs <==> run == runs[0] || run in runs[1..];
    }
  }

  /** A substitution changes the text exactly when its old reference is one of the runs. */
  lemma SubstituteChanges(text: string, r: Replacement)
    requires IsRef(r.before) && IsRef(r.after) && r.before != r.after
    ensures Substitute(text, 0, r) != text <==> r.before in Runs(text, 0)
  {
    var m := map[r.before := r.after];
    var output := Rewrite(text, 0, m);
    SubstituteIsRewrite(text, 0, r);
    if r.before in Runs(text, 0) {
      assert output[0..] == output;
      RunsOfRewrite(text, 0, output, 0, m);
      ImagesHold(Runs(text, 0), m, r.before);
    } else {
      RewriteWithoutRuns(text, 0, m);
    }
  }

  /** Earlier substitutions neither add nor remove the old reference of a later one. */
  lemma StillOccurs(text: string, rs: seq<Replacement>)
    requires rs != [] && ProperReplacements(rs) && NoForwardChain(rs)
    ensures var rest, last := rs[..|rs| - 1], rs[|rs| - 1];
            last.before in Runs(Sequential(text, rest), 0) <==> last.before in Runs(text, 0)
  {
    var rest, last := rs[..|rs| - 1], rs[|rs| - 1];
    var m, output := AsMap(rest), Rewrite(text, 0, AsMap(rest));
    SequentialIsSimultaneous(text, rest);
    AsMapHolds(rest);
    assert output[0..] == output;
    RunsOfRewrite(text, 0, output, 0, m);
    ImagesHold(Runs(text, 0), m, last.before);
    forall run: string ensures Look(m, run) == last.before <==> run == last.before {
      if run in m {
        var k :| 0 <= k < |rest| && rest[k].before == run;
        assert rs[k].after != last.before;
      }
    }
  }

  /** The updates reported for a file are exactly those whose old reference stood in it. */
  lemma {:induction false} ReportedAreOccurring(text: string, rs: seq<Replacement>)
    requires ProperReplacements(rs) && NoForwardChain(rs)
    ensures Changing(text, rs) == Occurring(text, rs)
  {
    if rs != [] {
      var rest, last := rs[..|rs| - 1], rs[|rs| - 1];
      ReportedAreOccurring(text, rest);
      StillOccurs(text, rs);
      SubstituteChanges(Sequential(text, rest), last);
    }
  }

  /** Rewrites the text of one file and reports its updates. */
  method ReplaceContainerRefs(text: string, rs: seq<Replacement>) returns (updated: string, updates: seq<Replacement>)
    requires forall k :: 0 <= k < |rs| ==> rs[k].before != ""
    ensures updated == Sequential(text, rs)
    ensures updates == Changing(text, rs)
    ensures updates == [] ==> updated == text
    ensures ProperReplacements(rs) && NoForwardChain(rs) ==>
              updated == Simultaneous(text, rs) && updates == Occurring(text, rs)
  {
    updated, updates := text, [];
    for n := 0 to |rs|
      invariant updated == Sequential(text, rs[..n])
      invariant updates == Changing(text, rs[..n])
      invariant updates == [] ==> updated == text
    {
      assert rs[..n + 1][..n] == rs[..n];
      var next := Substitute(updated, 0, rs[n]);
      if next != updated {
        updates := updates + [rs[n]];
      }
      updated := next;
    }
    assert rs[..|rs|] == rs;
    if ProperReplacements(rs) && NoForwardChain(rs) {
      SequentialIsSimultaneous(text, rs);
      ReportedAreOccurring(text, rs);
    }
  }
}
