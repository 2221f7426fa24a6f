/**
 The `uses:` references of workflow files: rewriting every action whose major version is outdated.
 */
module WorkflowActions {
  import opened Prelude
  import opened Text
  import opened Versions
  import opened WorkflowVersions
  import opened WorkflowRewriting

  // ----- The new reference -----

  function MajorVersion(ref: string): Option<nat> {
    if ref == "" || ref[0] != 'v' || DigitsEnd(ref, 1) == 1 then None else Some(Number(ref[1..DigitsEnd(ref, 1)]))
  }

  function UpdatedActionRef(current: string, latest: string): string {
    match (MajorVersion(current), MajorVersion(latest))
    case (Some(c), Some(l)) => if c == l then current else latest
    case _ => current
  }

  // ----- Finding a reference -----

  /** A word may begin at `i`. */
  predicate Boundary(s: string, i: nat)
    requires i <= |s|
  {
    i == 0 || !IsWord(s[i - 1])
  }

  /** Where the repository of `uses: owner/name@ref` starts, where it ends, and where the reference ends. */
  datatype Action = Action(start: nat, at: nat, end: nat)

  function MatchUses(s: string, i: nat): (m: Option<Action>)
    requires i <= |s|
    ensures m.Some? ==> i + 5 <= m.value.start < m.value.at < m.value.end - 1 < |s|
  {
    if !Boundary(s, i) || !OccursAt(s, "uses:", i) then None
    else
      var j := SpaceEnd(s, i + 5);
      var k := NameEnd(s, j);
      if k == j || k == |s| || s[k] != '/' then None
      else
        var l := NameEnd(s, k + 1);
        if l == k + 1 || l == |s| || s[l] != '@' || RefEnd(s, l + 1) == l + 1 then None
        else Some(Action(j, l, RefEnd(s, l + 1)))
  }

  type LatestTags = map<string, Option<string>>

  /** The reference to write: the old one unless a latest tag is known and has another major version. */
  function NewRef(repository: string, ref: string, latest: LatestTags): string {
    if repository in latest && latest[repository].Some? then UpdatedActionRef(ref, latest[repository].value) else ref
  }

  datatype ActionUpdate = ActionUpdate(repository: string, before: string, after: string)

  function UpdateFor(repository: string, ref: string, latest: LatestTags): ActionUpdate {
    ActionUpdate(repository, ref, NewRef(repository, ref, latest))
  }

  function UpdateOf(s: string, m: Action, latest: LatestTags): ActionUpdate
    requires m.start <= m.at < m.end <= |s|
  {
    UpdateFor(s[m.start..m.at], s[m.at + 1..m.end], latest)
  }

  // ----- Rewriting -----

  /** The text of a match with its new reference. */
  function Written(s: string, i: nat, m: Action, latest: LatestTags): string
    requires i <= m.start <= m.at < m.end <= |s|
  {
    s[i..m.at + 1] + UpdateOf(s, m, latest).after
  }

  /** What is reported for a match. */
  function Reported(s: string, m: Action, latest: LatestTags): seq<ActionUpdate>
    requires m.start <= m.at < m.end <= |s|
  {
    var u := UpdateOf(s, m, latest);
    if u.after != u.before then [u] else []
  }

  /** What is written and reported at `i`, and where to go on. */
  datatype Emitted = Emitted(text: string, updates: seq<ActionUpdate>, next: nat)

  function Emit(s: string, i: nat, latest: LatestTags): (e: Emitted)
    requires i < |s|
    ensures i < e.next <= |s|
  {
    match MatchUses(s, i)
    case None => Emitted([s[i]], [], i + 1)
    case Some(m) => Emitted(Written(s, i, m, latest), Reported(s, m, latest), m.end)
  }

  /** The text from `i` on, with every reference replaced by its new one. */
  function Rewrite(s: string, i: nat, latest: LatestTags): string
    requires i <= |s|
    decreases |s| - i
  {
    if i == |s| then "" else Emit(s, i, latest).text + Rewrite(s, Emit(s, i, latest).next, latest)
  }

  /** The updates reported from `i` on. */
  function Updates(s: string, i: nat, latest: LatestTags): seq<ActionUpdate>
    requires i <= |s|
    decreases |s| - i
  {
    if i == |s| then [] else Emit(s, i, latest).updates + Updates(s, Emit(s, i, latest).next, latest)
  }

  lemma NoMatch(s: string, i: nat, latest: LatestTags)
    requires i < |s| && MatchUses(s, i).None?
    ensures Rewrite(s, i, latest) == [s[i]] + Rewrite(s, i + 1, latest)
    ensures Updates(s, i, latest) == Updates(s, i + 1, latest)
  {
  }

  lemma Match(s: string, i: nat, m: Action, latest: LatestTags)
    requires i <= |s| && MatchUses(s, i) == Some(m)
    ensures Rewrite(s, i, latest) == Written(s, i, m, latest) + Rewrite(s, m.end, latest)
    ensures Updates(s, i, latest) == Reported(s, m, latest) + Updates(s, m.end, latest)
  {
  }

  /** What has been written and reported before `i` is the start of all there is. */
  ghost predicate Begun(s: string, i: nat, latest: LatestTags, updated: string, updates: seq<ActionUpdate>)
    requires i <= |s|
  {
    Rewrite(s, 0, latest) == updated + Rewrite(s, i, latest) && Updates(s, 0, latest) == updates + Updates(s, i, latest)
  }

  lemma EmitFirst(s: string, i: nat, latest: LatestTags)
    requires i < |s|
    ensures var e := Emit(s, i, latest);
            Rewrite(s, i, latest) == e.text + Rewrite(s, e.next, latest) &&
            Updates(s, i, latest) == e.updates + Updates(s, e.next, latest)
  {
  }

  lemma BegunNext(s: string, i: nat, latest: LatestTags, updated: string, updates: seq<ActionUpdate>, e: Emitted)
    requires i < |s| && Begun(s, i, latest, updated, updates) && e == Emit(s, i, latest)
    ensures Begun(s, e.next, latest, updated + e.text, updates + e.updates)
  {
    EmitFirst(s, i, latest);
    AppendAssociates(updated, e.text, Rewrite(s, e.next, latest));
    AppendAssociates(updates, e.updates, Updates(s, e.next, latest));
  }

  lemma BegunEnds(s: string, latest: LatestTags, updated: string, updates: seq<ActionUpdate>)
    requires Begun(s, |s|, latest, updated, updates)
    ensures updated == Rewrite(s, 0, latest) && updates == Updates(s, 0, latest)
  {
    assert updated + "" == updated && updates + [] == updates;
  }

  /** Replaces match after match and collects the updates. */
  method UpdatedActionRefs(text: string, latest: LatestTags) returns (updated: string, updates: seq<ActionUpdate>)
    ensures updated == Rewrite(text, 0, latest) && updates == Updates(text, 0, latest)
  {
    updated, updates := "", [];
    var i := 0;
    while i < |text|
      invariant i <= |text|
      invariant Begun(text, i, latest, updated, updates)
    {
      var e := Emit(text, i, latest);
      BegunNext(text, i, latest, updated, updates, e);
      updated, updates, i := updated + e.text, updates + e.updates, e.next;
    }
    BegunEnds(text, latest, updated, updates);
  }

  // ----- Rewriting again -----

  ghost predicate PlainTags(latest: LatestTags) {
    forall repository :: repository in latest && latest[repository].Some? ==> IsPlainRef(latest[repository].value)
  }

  lemma NewRefSettles(repository: string, ref: string, latest: LatestTags)
    ensures NewRef(repository, NewRef(repository, ref, latest), latest) == NewRef(repository, ref, latest)
  {
  }

  /** The part of a match that decides that there is one: up to the first character of the reference. */
  ghost predicate IsHead(s: string, i: nat, j: nat, k: nat, l: nat) {
    && i + 5 <= j < k && k + 1 < l && l + 1 < |s| && OccursAt(s, "uses:", i)
    && (forall x :: i + 5 <= x < j ==> IsSpace(s[x]))
    && (forall x :: j <= x < k || k < x < l ==> IsNameChar(s[x]))
    && s[k] == '/' && s[l] == '@' && IsRefChar(s[l + 1])
  }

  lemma {:induction false} NameEndIs(s: string, i: nat, e: nat)
    requires i <= e < |s| && (forall x :: i <= x < e ==> IsNameChar(s[x])) && !IsNameChar(s[e])
    ensures NameEnd(s, i) == e
  {
  }

  lemma HeadDecides(s: string, i: nat, j: nat, k: nat, l: nat)
    requires IsHead(s, i, j, k, l) && Boundary(s, i)
    ensures MatchUses(s, i) == Some(Action(j, l, RefEnd(s, l + 1)))
  {
    assert !IsSpace(s[j]);
    NameEndIs(s, j, k);
    NameEndIs(s, k + 1, l);
  }

  lemma MatchHasHead(s: string, i: nat) returns (k: nat)
    requires i <= |s| && MatchUses(s, i).Some?
    ensures var m := MatchUses(s, i).value;
            IsHead(s, i, m.start, k, m.at) && Boundary(s, i) && m.end == RefEnd(s, m.at + 1)
  {
    k := NameEnd(s, SpaceEnd(s, i + 5));
  }

  /** The pattern matches in one way only: `uses:` where a word may begin, white space, owner, slash,
      name, at sign, and a reference up to white space or a hash sign. */
  lemma MatchUsesMeans(s: string, i: nat, j: nat, l: nat, e: nat)
    requires i <= |s|
    ensures MatchUses(s, i) == Some(Action(j, l, e)) <==>
              Boundary(s, i) && exists k: nat :: IsHead(s, i, j, k, l) && e == RefEnd(s, l + 1)
  {
    if MatchUses(s, i) == Some(Action(j, l, e)) {
      var k := MatchHasHead(s, i);
    }
    if Boundary(s, i) {
      if k: nat :| IsHead(s, i, j, k, l) && e == RefEnd(s, l + 1) {
        HeadDecides(s, i, j, k, l);
      }
    }
  }

  lemma UsesChars(s: string, i: nat)
    requires OccursAt(s, "uses:", i)
    ensures s[i] == 'u' && s[i + 1] == 's' && s[i + 2] == 'e' && s[i + 3] == 's' && s[i + 4] == ':'
  {
  }

  /** `t` from `p` on and `s` from `i` on agree for `n` characters. */
  ghost predicate SameFrom(s: string, i: nat, t: string, p: nat, n: nat) {
    i + n <= |s| && p + n <= |t| && s[i..i + n] == t[p..p + n]
  }

  lemma SameAt(s: string, i: nat, t: string, p: nat, n: nat, x: nat)
    requires SameFrom(s, i, t, p, n) && x < n
    ensures s[i + x] == t[p + x]
  {
  }

  lemma SameUses(s: string, i: nat, t: string, p: nat, n: nat)
    requires SameFrom(s, i, t, p, n) && n >= 5 && OccursAt(t, "uses:", p)
    ensures OccursAt(s, "uses:", i)
  {
    UsesChars(t, p);
    SameAt(s, i, t, p, n, 0);
    SameAt(s, i, t, p, n, 1);
    SameAt(s, i, t, p, n, 2);
    SameAt(s, i, t, p, n, 3);
    SameAt(s, i, t, p, n, 4);
  }

  lemma HeadMoves(s: string, i: nat, t: string, p: nat, n: nat, j: nat, k: nat, l: nat)
    requires IsHead(t, p, j, k, l) && SameFrom(s, i, t, p, n) && l + 1 < p + n
    ensures IsHead(s, i, j - p + i, k - p + i, l - p + i)
  {
    forall x | i + 5 <= x < j - p + i ensures IsSpace(s[x]) { SameAt(s, i, t, p, n, x - i); }
    forall x | j - p + i <= x < k - p + i || k - p + i < x < l - p + i
      ensures IsNameChar(s[x])
    {
      SameAt(s, i, t, p, n, x - i);
    }
    SameAt(s, i, t, p, n, k - p);
    SameAt(s, i, t, p, n, l - p);
    SameAt(s, i, t, p, n, l + 1 - p);
    SameUses(s, i, t, p, n);
  }

  /** No head reaches over the colon of another `uses:`. */
  lemma HeadStopsAtColon(t: string, p: nat, j: nat, k: nat, l: nat, c: nat)
    requires IsHead(t, p, j, k, l) && p + 5 <= c < |t| && t[c] == ':'
    ensures l < c
  {
  }

  /** `m` is the end or has another `uses:`, with `d` behind it. */
  ghost predicate IsNext(s: string, m: nat, d: nat) {
    m <= d <= |s| && (m < |s| ==> m + 5 < d && OccursAt(s, "uses:", m))
  }

  /** Rewriting copies up to the reference of the next match. */
  ghost predicate CopiesTo(s: string, i: nat, latest: LatestTags, m: nat, d: nat)
    requires i <= |s|
  {
    i <= m && IsNext(s, m, d) && s[i..d] <= Rewrite(s, i, latest) &&
    (m == |s| ==> d == |s| && |Rewrite(s, i, latest)| == |s| - i)
  }

  lemma CopiesPast(s: string, i: nat, latest: LatestTags, m: nat, d: nat)
    requires i < |s| && MatchUses(s, i).None? && CopiesTo(s, i + 1, latest, m, d)
    ensures CopiesTo(s, i, latest, m, d)
  {
    NoMatch(s, i, latest);
    ConsSlice(s, i, d);
    ConsPrefix(s[i], s[i + 1..d], Rewrite(s, i + 1, latest));
  }

  lemma CopiesHere(s: string, i: nat, latest: LatestTags) returns (d: nat)
    requires i < |s| && MatchUses(s, i).Some?
    ensures CopiesTo(s, i, latest, i, d)
  {
    var m := MatchUses(s, i).value;
    d := m.at + 1;
    Match(s, i, m, latest);
  }

  lemma CopiesEnd(s: string, latest: LatestTags)
    ensures CopiesTo(s, |s|, latest, |s|, |s|)
  {
  }

  lemma {:induction false} CopiesUpToRef(s: string, i: nat, latest: LatestTags) returns (m: nat, d: nat)
    requires i <= |s|
    ensures CopiesTo(s, i, latest, m, d) && (i < |s| && MatchUses(s, i).None? ==> i < m)
    decreases |s| - i
  {
    m := i;
    if i == |s| {
      d := i;
      CopiesEnd(s, latest);
    } else if MatchUses(s, i).Some? {
      d := CopiesHere(s, i, latest);
    } else {
      m, d := CopiesUpToRef(s, i + 1, latest);
      CopiesPast(s, i, latest, m, d);
    }
  }

  // ----- The rewritten text -----

  lemma PrefixIsSame(s: string, i: nat, d: nat, t: string, p: nat, rest: string)
    requires i <= d <= |s| && p <= |t| && rest == t[p..] && s[i..d] <= rest
    ensures SameFrom(s, i, t, p, d - i)
  {
  }

  /** The head of a match in the rewritten text, where the original was copied, was there before. */
  lemma NewHeadIsOld(s: string, i: nat, t: string, p: nat, m: nat, d: nat, j: nat, k: nat, l: nat)
    requires IsHead(t, p, j, k, l) && i < m && IsNext(s, m, d) && SameFrom(s, i, t, p, d - i)
    requires m == |s| ==> d == |s| && |t| - p == |s| - i
    ensures p <= j && IsHead(s, i, j - p + i, k - p + i, l - p + i) && s[i] == 'u'
  {
    if m < |s| { HeadStopsBefore(s, i, t, p, m, d, j, k, l); }
    HeadMoves(s, i, t, p, d - i, j, k, l);
    UsesChars(s, i);
  }

  lemma HeadStopsBefore(s: string, i: nat, t: string, p: nat, m: nat, d: nat, j: nat, k: nat, l: nat)
    requires i < m < |s| && IsNext(s, m, d) && SameFrom(s, i, t, p, d - i) && IsHead(t, p, j, k, l)
    ensures l + 1 < p + (d - i)
  {
    UsesChars(s, m);
    SameAt(s, i, t, p, d - i, m + 4 - i);
    HeadStopsAtColon(t, p, j, k, l, p + (m + 4 - i));
  }

  lemma NewMatchIsOld(s: string, i: nat, t: string, p: nat, m: nat, d: nat)
    requires p <= |t| && MatchUses(t, p).Some? && i < m && IsNext(s, m, d) && SameFrom(s, i, t, p, d - i)
    requires m == |s| ==> d == |s| && |t| - p == |s| - i
    requires s[i] == 'u' ==> Boundary(s, i) == Boundary(t, p)
    ensures MatchUses(s, i).Some?
  {
    var k := MatchHasHead(t, p);
    var j, l := MatchUses(t, p).value.start, MatchUses(t, p).value.at;
    NewHeadIsOld(s, i, t, p, m, d, j, k, l);
    HeadDecides(s, i, j - p + i, k - p + i, l - p + i);
  }

  lemma CopiedRest(s: string, i: nat, latest: LatestTags, t: string, p: nat) returns (m: nat, d: nat)
    requires i < |s| && MatchUses(s, i).None? && p <= |t| && t[p..] == Rewrite(s, i, latest)
    ensures i < m && IsNext(s, m, d) && SameFrom(s, i, t, p, d - i) && (m == |s| ==> d == |s| && |t| - p == |s| - i)
  {
    m, d := CopiesUpToRef(s, i, latest);
    PrefixIsSame(s, i, d, t, p, Rewrite(s, i, latest));
  }

  /** Where nothing matched, nothing matches after rewriting. */
  lemma NoNewMatch(s: string, i: nat, latest: LatestTags, t: string, p: nat)
    requires i < |s| && MatchUses(s, i).None? && p <= |t| && t[p..] == Rewrite(s, i, latest)
    requires s[i] == 'u' ==> Boundary(s, i) == Boundary(t, p)
    ensures MatchUses(t, p).None?
  {
    var m, d := CopiedRest(s, i, latest, t, p);
    if MatchUses(t, p).Some? { NewMatchIsOld(s, i, t, p, m, d); }
  }

  lemma {:induction false} RefEndIs(s: string, b: nat, e: nat)
    requires b <= e <= |s| && (forall x :: b <= x < e ==> IsRefChar(s[x])) && (e < |s| ==> !IsRefChar(s[e]))
    ensures RefEnd(s, b) == e
  {
  }

  lemma AfterIsPlain(s: string, i: nat, m: Action, latest: LatestTags)
    requires i <= |s| && MatchUses(s, i) == Some(m) && PlainTags(latest)
    ensures IsPlainRef(UpdateOf(s, m, latest).after)
  {
    var ref := s[m.at + 1..m.end];
    assert IsPlainRef(ref) by {
      var k := MatchHasHead(s, i);
      assert forall x :: 0 <= x < |ref| ==> ref[x] == s[m.at + 1 + x];
    }
  }

  lemma NoMatchWithoutU(s: string, e: nat)
    requires e < |s| && s[e] != 'u'
    ensures MatchUses(s, e).None?
  {
    if OccursAt(s, "uses:", e) { UsesChars(s, e); }
  }

  lemma MatchStops(s: string, i: nat, m: Action)
    requires i <= |s| && MatchUses(s, i) == Some(m)
    ensures m.end <= |s| && (m.end < |s| ==> !IsRefChar(s[m.end]) && s[m.end] != 'u')
  {
  }

  /** After a match the text goes on with what stopped the reference, or ends. */
  lemma StopIsCopied(s: string, e: nat, latest: LatestTags, t: string, q: nat)
    requires e <= |s| && (e < |s| ==> !IsRefChar(s[e]) && s[e] != 'u') && q <= |t| && t[q..] == Rewrite(s, e, latest)
    ensures q < |t| ==> !IsRefChar(t[q])
  {
    if e < |s| {
      NoMatchWithoutU(s, e);
      NoMatch(s, e, latest);
      CopiedChar(t, q, s[e], Rewrite(s, e + 1, latest));
    }
  }

  /** `t` from `p` on starts with the rewritten match, and goes on at `q`. */
  ghost predicate StartsWritten(s: string, i: nat, m: Action, after: string, t: string, p: nat, q: nat) {
    && i <= m.at < |s| && q == p + (m.at + 1 - i) + |after| <= |t| && SameFrom(s, i, t, p, m.at + 1 - i)
    && t[p + (m.at + 1 - i)..q] == after
  }

  lemma WrittenStarts(s: string, i: nat, m: Action, latest: LatestTags, t: string, p: nat, rest: string)
    returns (q: nat)
    requires i <= m.start <= m.at < m.end <= |s| && p <= |t| && t[p..] == Written(s, i, m, latest) + rest
    ensures StartsWritten(s, i, m, UpdateOf(s, m, latest).after, t, p, q) && t[q..] == rest
  {
    var head, after := s[i..m.at + 1], UpdateOf(s, m, latest).after;
    var h := p + |head|;
    q := h + |after|;
    var tail := t[p..];
    assert tail[..|head|] == head && tail[|head|..|head| + |after|] == after && tail[|head| + |after|..] == rest;
    assert t[p..h] == head && t[h..q] == after && t[q..] == rest;
  }

  lemma RefOfWritten(t: string, h: nat, q: nat, after: string)
    requires h <= q <= |t| && t[h..q] == after && IsPlainRef(after) && (q < |t| ==> !IsRefChar(t[q]))
    ensures h < q && IsRefChar(t[h]) && RefEnd(t, h) == q
  {
    assert forall x :: h <= x < q ==> t[x] == after[x - h];
    RefEndIs(t, h, q);
  }

  lemma HeadStays(s: string, i: nat, m: Action, k: nat, t: string, p: nat, q: nat, after: string, h: Action)
    requires IsHead(s, i, m.start, k, m.at) && StartsWritten(s, i, m, after, t, p, q) && IsPlainRef(after)
    requires (q < |t| ==> !IsRefChar(t[q])) && h == Action(m.start - i + p, m.at - i + p, q)
    ensures p <= k - i + p && IsHead(t, p, h.start, k - i + p, h.at) && RefEnd(t, h.at + 1) == h.end
  {
    RefOfWritten(t, m.at + 1 - i + p, q, after);
    WrittenHead(s, i, m.start, k, m.at, t, p);
  }

  lemma HeadFinds(t: string, p: nat, k: nat, h: Action)
    requires IsHead(t, p, h.start, k, h.at) && Boundary(t, p) && RefEnd(t, h.at + 1) == h.end
    ensures MatchUses(t, p) == Some(h)
  {
    HeadDecides(t, p, h.start, k, h.at);
  }

  lemma WrittenHead(s: string, i: nat, j: nat, k: nat, l: nat, t: string, p: nat)
    requires IsHead(s, i, j, k, l) && SameFrom(s, i, t, p, l + 1 - i)
    requires l - i + p + 1 < |t| && IsRefChar(t[l - i + p + 1])
    ensures IsHead(t, p, j - i + p, k - i + p, l - i + p)
  {
    var n := l + 1 - i;
    forall x | p + 5 <= x < j - i + p ensures IsSpace(t[x]) { SameAt(s, i, t, p, n, x - p); }
    forall x | j - i + p <= x < k - i + p || k - i + p < x < l - i + p
      ensures IsNameChar(t[x])
    {
      SameAt(s, i, t, p, n, x - p);
    }
    SameAt(s, i, t, p, n, k - i);
    SameAt(s, i, t, p, n, l - i);
    SameUses(t, p, s, i, n);
  }

  lemma SamePiece(s: string, i: nat, t: string, p: nat, n: nat, a: nat, b: nat)
    requires SameFrom(s, i, t, p, n) && a <= b <= n
    ensures s[i + a..i + b] == t[p + a..p + b]
  {
    SliceOfSlice(s, i, n, a, b);
    SliceOfSlice(t, p, n, a, b);
  }

  lemma PiecesAgain(s: string, i: nat, m: Action, t: string, p: nat, q: nat, after: string)
    requires i <= m.start <= m.at < m.end <= |s| && StartsWritten(s, i, m, after, t, p, q) && m.at - i + p < q
    ensures t[m.start - i + p..m.at - i + p] == s[m.start..m.at] && t[m.at - i + p + 1..q] == after
  {
    SamePiece(s, i, t, p, m.at + 1 - i, m.start - i, m.at - i);
  }

  lemma UpdateAgain(t: string, h: Action, repository: string, ref: string, latest: LatestTags)
    requires h.start <= h.at < h.end <= |t| && t[h.start..h.at] == repository
    requires t[h.at + 1..h.end] == NewRef(repository, ref, latest)
    ensures var after := NewRef(repository, ref, latest);
            UpdateOf(t, h, latest) == ActionUpdate(repository, after, after)
  {
    NewRefSettles(repository, ref, latest);
  }

  lemma WrittenAgain(s: string, i: nat, m: Action, latest: LatestTags, t: string, p: nat, q: nat)
    requires i <= m.start <= m.at < m.end <= |s| && StartsWritten(s, i, m, UpdateOf(s, m, latest).after, t, p, q)
    requires m.at - i + p < q
    ensures var again := Action(m.start - i + p, m.at - i + p, q);
            Written(t, p, again, latest) == Written(s, i, m, latest) && Reported(t, again, latest) == []
  {
    PiecesAgain(s, i, m, t, p, q, UpdateOf(s, m, latest).after);
    UpdateAgain(t, Action(m.start - i + p, m.at - i + p, q), s[m.start..m.at], s[m.at + 1..m.end], latest);
    SamePiece(s, i, t, p, m.at + 1 - i, 0, m.at + 1 - i);
  }

  lemma CopiedChar(t: string, p: nat, c: char, rest: string)
    requires p <= |t| && t[p..] == [c] + rest
    ensures p < |t| && t[p] == c && t[p + 1..] == rest
  {
  }

  lemma CopyAgain(s: string, i: nat, latest: LatestTags, t: string, p: nat)
    requires i < |s| && MatchUses(s, i).None? && p <= |t| && t[p..] == Rewrite(s, i, latest)
    requires s[i] == 'u' ==> Boundary(s, i) == Boundary(t, p)
    ensures p < |t| && t[p] == s[i] && t[p + 1..] == Rewrite(s, i + 1, latest)
    ensures MatchUses(t, p).None? && Boundary(s, i + 1) == Boundary(t, p + 1)
  {
    NoNewMatch(s, i, latest, t, p);
    NoMatch(s, i, latest);
    CopiedChar(t, p, s[i], Rewrite(s, i + 1, latest));
  }

  lemma TwiceCopy(s: string, i: nat, latest: LatestTags, t: string, p: nat)
    requires i < |s| && p < |t| && s[i] == t[p] && MatchUses(s, i).None? && MatchUses(t, p).None?
    requires Rewrite(t, p + 1, latest) == Rewrite(s, i + 1, latest) && Updates(t, p + 1, latest) == []
    ensures Rewrite(t, p, latest) == Rewrite(s, i, latest) && Updates(t, p, latest) == []
  {
  }

  lemma {:induction false} RewriteTwice(s: string, i: nat, latest: LatestTags, t: string, p: nat)
    requires PlainTags(latest) && i <= |s| && p <= |t| && t[p..] == Rewrite(s, i, latest)
    requires i < |s| && s[i] == 'u' ==> Boundary(s, i) == Boundary(t, p)
    ensures Rewrite(t, p, latest) == Rewrite(s, i, latest) && Updates(t, p, latest) == []
    decreases |s| - i
  {
    if i < |s| {
      if MatchUses(s, i).Some? {
        var m := MatchUses(s, i).value;
        var q, h := MatchAgain(s, i, m, latest, t, p, UpdateOf(s, m, latest).after);
        RewriteTwice(s, m.end, latest, t, q);
        TwiceMatch(s, i, m, latest, t, p, q, h);
      } else {
        CopyAgain(s, i, latest, t, p);
        RewriteTwice(s, i + 1, latest, t, p + 1);
        TwiceCopy(s, i, latest, t, p);
      }
    }
  }

  /** `t` has the rewritten match at `p`, and goes on at `q` with the rest rewritten. */
  ghost predicate RestWritten(s: string, i: nat, m: Action, latest: LatestTags, t: string, p: nat, q: nat,
                              after: string)
    requires m.end <= |s|
  {
    && p <= q && StartsWritten(s, i, m, after, t, p, q) && t[q..] == Rewrite(s, m.end, latest) && IsPlainRef(after)
    && (q < |t| ==> !IsRefChar(t[q])) && (m.end < |s| ==> s[m.end] != 'u')
  }

  lemma WrittenRest(s: string, i: nat, m: Action, latest: LatestTags, t: string, p: nat, after: string) returns (q: nat)
    requires PlainTags(latest) && i < |s| && MatchUses(s, i) == Some(m) && p <= |t| && t[p..] == Rewrite(s, i, latest)
    requires after == UpdateOf(s, m, latest).after
    ensures RestWritten(s, i, m, latest, t, p, q, after)
  {
    Match(s, i, m, latest);
    q := WrittenStarts(s, i, m, latest, t, p, Rewrite(s, m.end, latest));
    MatchStops(s, i, m);
    StopIsCopied(s, m.end, latest, t, q);
    AfterIsPlain(s, i, m, latest);
  }

  lemma HeadAgain(s: string, i: nat, m: Action, t: string, p: nat, q: nat, after: string, h: Action) returns (k: nat)
    requires i <= |s| && MatchUses(s, i) == Some(m) && StartsWritten(s, i, m, after, t, p, q) && IsPlainRef(after)
    requires (q < |t| ==> !IsRefChar(t[q])) && h == Action(m.start - i + p, m.at - i + p, q)
    ensures IsHead(t, p, h.start, k, h.at) && RefEnd(t, h.at + 1) == h.end
  {
    var k0 := MatchHasHead(s, i);
    HeadStays(s, i, m, k0, t, p, q, after, h);
    k := k0 - i + p;
  }

  lemma MatchBegins(s: string, i: nat, t: string, p: nat)
    requires i < |s| && MatchUses(s, i).Some? && p <= |t| && (s[i] == 'u' ==> Boundary(s, i) == Boundary(t, p))
    ensures Boundary(t, p)
  {
    var k := MatchHasHead(s, i);
    UsesChars(s, i);
  }

  /** A match is found again, its reference is as written, and the text goes on behind it. */
  lemma MatchAgain(s: string, i: nat, m: Action, latest: LatestTags, t: string, p: nat, after: string)
    returns (q: nat, h: Action)
    requires PlainTags(latest) && i < |s| && MatchUses(s, i) == Some(m) && p <= |t| && t[p..] == Rewrite(s, i, latest)
    requires (s[i] == 'u' ==> Boundary(s, i) == Boundary(t, p)) && after == UpdateOf(s, m, latest).after
    ensures RestWritten(s, i, m, latest, t, p, q, after)
    ensures h == Action(m.start - i + p, m.at - i + p, q) && MatchUses(t, p) == Some(h)
  {
    q := WrittenRest(s, i, m, latest, t, p, after);
    h := Action(m.start - i + p, m.at - i + p, q);
    MatchBegins(s, i, t, p);
    var k := HeadAgain(s, i, m, t, p, q, after, h);
    HeadFinds(t, p, k, h);
  }

  lemma TwiceMatch(s: string, i: nat, m: Action, latest: LatestTags, t: string, p: nat, q: nat, again: Action)
    requires i <= |s| && MatchUses(s, i) == Some(m)
    requires RestWritten(s, i, m, latest, t, p, q, UpdateOf(s, m, latest).after)
    requires again == Action(m.start - i + p, m.at - i + p, q) && MatchUses(t, p) == Some(again)
    requires Rewrite(t, q, latest) == Rewrite(s, m.end, latest) && Updates(t, q, latest) == []
    ensures Rewrite(t, p, latest) == Rewrite(s, i, latest) && Updates(t, p, latest) == []
  {
    Match(s, i, m, latest);
    Match(t, p, again, latest);
    WrittenAgain(s, i, m, latest, t, p, q);
  }

  /** Rewriting the references again changes nothing and reports nothing. */
  lemma ActionsSettle(text: string, latest: LatestTags)
    requires PlainTags(latest)
    ensures var once := Rewrite(text, 0, latest);
            Rewrite(once, 0, latest) == once && Updates(once, 0, latest) == []
  {
    var once := Rewrite(text, 0, latest);
    assert once[0..] == once;
    RewriteTwice(text, 0, latest, once, 0);
  }

  lemma UnchangedMatch(s: string, i: nat, m: Action, latest: LatestTags)
    requires i <= m.start <= m.at < m.end <= |s| && Reported(s, m, latest) == []
    ensures Written(s, i, m, latest) == s[i..m.end]
  {
  }

  lemma EmitUnchanged(s: string, i: nat, latest: LatestTags, e: Emitted)
    requires i < |s| && e == Emit(s, i, latest) && e.updates == []
    ensures e.text == s[i..e.next]
  {
    if MatchUses(s, i).Some? { UnchangedMatch(s, i, MatchUses(s, i).value, latest); }
  }

  lemma SplitRest(s: string, i: nat, j: nat)
    requires i <= j <= |s|
    ensures s[i..] == s[i..j] + s[j..]
  {
  }

  /** Without an update the text stays as it is. */
  lemma {:induction false} NothingReported(s: string, i: nat, latest: LatestTags)
    requires i <= |s| && Updates(s, i, latest) == []
    ensures Rewrite(s, i, latest) == s[i..]
    decreases |s| - i
  {
    if i < |s| {
      var e := Emit(s, i, latest);
      EmitFirst(s, i, latest);
      NothingReported(s, e.next, latest);
      EmitUnchanged(s, i, latest, e);
      SplitRest(s, i, e.next);
    }
  }

  /** An update goes to the latest tag of its repository, and to another major version. */
  ghost predicate IsMajorUpdate(u: ActionUpdate, latest: LatestTags) {
    && u.repository in latest && latest[u.repository] == Some(u.after)
    && MajorVersion(u.before).Some? && MajorVersion(u.after).Some? && MajorVersion(u.before) != MajorVersion(u.after)
  }

  lemma {:induction false} UpdatesAreMajor(s: string, i: nat, latest: LatestTags)
    requires i <= |s|
    ensures forall u :: u in Updates(s, i, latest) ==> IsMajorUpdate(u, latest)
    decreases |s| - i
  {
    if i < |s| {
      EmitFirst(s, i, latest);
      var e := Emit(s, i, latest);
      UpdatesAreMajor(s, e.next, latest);
      ReportedIsMajor(s, i, latest);
    }
  }

  lemma ReportedIsMajor(s: string, i: nat, latest: LatestTags)
    requires i < |s|
    ensures forall u :: u in Emit(s, i, latest).updates ==> IsMajorUpdate(u, latest)
  {
  }
}
