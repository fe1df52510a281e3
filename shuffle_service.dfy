/** The partitioning engine: allocate the teams, distribute the (already
    permuted) participants by one of two strategies, and score the result.
    Teams are values held in an array that the distribution updates in
    place; the random orderings are a caller-supplied `order`. Each method
    is tied to a function on values (`InsertionSorted`, `Rebalanced`,
    `FillSmallest`, `Dealt`, `Shuffled`) whose properties are lemmas. */
module ShuffleService {
  import opened Types
  import opened Grouping
  import opened TeamBags
  import opened Scores

  datatype Outcome = Assigned(assignment: TeamAssignment) | Threw

  /** The gender-balanced strategy is chosen iff this holds. */
  predicate UseGenderPath(c: ShuffleConfig) {
    c.balanceGender && c.genderBalanceWeight > 0.5
  }

  /** Rebalancing still has work: some team is above base + 1 while some
      team is below base. */
  predicate MoveNeeded(ts: seq<Team>, base: int) {
    (exists i :: 0 <= i < |ts| && Size(ts[i]) > base + 1)
    && (exists j :: 0 <= j < |ts| && Size(ts[j]) < base)
  }

  // ------------------------------------------------------- round-robin deal

  /** The members of group `g` whose position is congruent to `j` modulo `n`. */
  function Stride(g: seq<Participant>, j: nat, n: nat): seq<Participant>
    requires n > 0
  {
    if g == [] then []
    else Stride(g[..|g| - 1], j, n) + (if (|g| - 1) % n == j then [g[|g| - 1]] else [])
  }

  /** Member `i` of a group goes to team `i % n`, and a team receives
      nothing else. */
  lemma {:induction false} StrideSpec(g: seq<Participant>, j: nat, n: nat)
    requires n > 0
    ensures forall i :: 0 <= i < |g| && i % n == j ==> g[i] in Stride(g, j, n)
    ensures forall x :: x in Stride(g, j, n) ==> exists i :: 0 <= i < |g| && i % n == j && g[i] == x
  {
    if g != [] {
      var init := g[..|g| - 1];
      StrideSpec(init, j, n);
      forall i | 0 <= i < |g| && i % n == j ensures g[i] in Stride(g, j, n) {
        if i < |g| - 1 {
          assert init[i] == g[i];
        }
      }
      forall x | x in Stride(g, j, n) ensures exists i :: 0 <= i < |g| && i % n == j && g[i] == x {
        if x in Stride(init, j, n) {
          var i :| 0 <= i < |init| && i % n == j && init[i] == x;
          assert g[i] == x;
        } else {
          assert g[|g| - 1] == x;
        }
      }
    }
  }

  /** What team `j` of `n` receives from the college groups named by `ks`,
      each group dealt from team 0. */
  function Share(ps: seq<Participant>, ks: seq<string>, j: nat, n: nat): seq<Participant>
    requires n > 0
  {
    if ks == [] then []
    else Share(ps, ks[..|ks| - 1], j, n) + Stride(Select(ps, College, ks[|ks| - 1]), j, n)
  }

  /** The teams once the college groups named by `ks` have been dealt in
      full and the next group has been dealt as far as `pre`. */
  function PartlyDealt(ts: seq<Team>, ps: seq<Participant>, ks: seq<string>, pre: seq<Participant>): seq<Team>
    requires |ts| > 0
  {
    seq(|ts|, j requires 0 <= j < |ts| =>
      ts[j].(members := ts[j].members + Share(ps, ks, j, |ts|) + Stride(pre, j, |ts|)))
  }

  /** The teams after the round-robin deal of `ps`, before rebalancing. */
  function Dealt(ts: seq<Team>, ps: seq<Participant>): seq<Team>
    requires |ts| > 0
  {
    PartlyDealt(ts, ps, Keys(ps, College), [])
  }

  /** Dealing the next member of the current group pushes it onto the team
      its position selects. */
  lemma DealOne(ts: seq<Team>, ps: seq<Participant>, ks: seq<string>, pre: seq<Participant>, x: Participant)
    requires |ts| > 0
    ensures PartlyDealt(ts, ps, ks, pre + [x])
         == PushMember(PartlyDealt(ts, ps, ks, pre), |pre| % |ts|, x)
  {
    var n := |ts|;
    var pre' := pre + [x];
    assert pre'[..|pre'| - 1] == pre;
    var u := PartlyDealt(ts, ps, ks, pre');
    var v := PushMember(PartlyDealt(ts, ps, ks, pre), |pre| % n, x);
    forall j | 0 <= j < n ensures u[j] == v[j] {
      assert Stride(pre', j, n) == Stride(pre, j, n) + (if |pre| % n == j then [x] else []);
    }
  }

  /** A group dealt in full counts as one more dealt key. */
  lemma DealGroupDone(ts: seq<Team>, ps: seq<Participant>, ks: seq<string>, k: string)
    requires |ts| > 0
    ensures PartlyDealt(ts, ps, ks, Select(ps, College, k)) == PartlyDealt(ts, ps, ks + [k], [])
  {
    var ks' := ks + [k];
    assert ks'[..|ks'| - 1] == ks;
    var u := PartlyDealt(ts, ps, ks, Select(ps, College, k));
    var v := PartlyDealt(ts, ps, ks', []);
    forall j | 0 <= j < |ts| ensures u[j] == v[j] {
      var n := |ts|;
      assert Share(ps, ks', j, n) == Share(ps, ks, j, n) + Stride(Select(ps, College, k), j, n);
      assert v[j].members == ts[j].members + Share(ps, ks', j, n) + [];
    }
  }

  /** `DealGroupDone` for the key at position `g` of the key list. */
  lemma DealNextGroup(ts: seq<Team>, ps: seq<Participant>, ks: seq<string>, g: nat)
    requires |ts| > 0 && g < |ks|
    ensures PartlyDealt(ts, ps, ks[..g], Select(ps, College, ks[g])) == PartlyDealt(ts, ps, ks[..g + 1], [])
  {
    DealGroupDone(ts, ps, ks[..g], ks[g]);
    assert ks[..g + 1] == ks[..g] + [ks[g]];
  }

  /** Nothing dealt yet: the teams as they were. */
  lemma DealtNothing(ts: seq<Team>, ps: seq<Participant>)
    requires |ts| > 0
    ensures PartlyDealt(ts, ps, [], []) == ts
  {
    var u := PartlyDealt(ts, ps, [], []);
    forall j | 0 <= j < |ts| ensures u[j] == ts[j] {
      assert u[j].members == ts[j].members + [] + [];
    }
  }

  /** A partial deal adds to the teams exactly the groups dealt so far. */
  lemma {:induction false} PartlyDealtMembers(ts: seq<Team>, ps: seq<Participant>, ks: seq<string>, pre: seq<Participant>)
    requires |ts| > 0
    ensures Members(PartlyDealt(ts, ps, ks, pre)) == Members(ts) + GroupBag(ps, College, ks) + multiset(pre)
    decreases |ks|, |pre|
  {
    if pre != [] {
      var init := pre[..|pre| - 1];
      var x := pre[|pre| - 1];
      assert pre == init + [x];
      PartlyDealtMembers(ts, ps, ks, init);
      DealOne(ts, ps, ks, init, x);
      PushMembers(PartlyDealt(ts, ps, ks, init), |init| % |ts|, x);
    } else if ks != [] {
      var init := ks[..|ks| - 1];
      var k := ks[|ks| - 1];
      assert ks == init + [k];
      DealGroupDone(ts, ps, init, k);
      PartlyDealtMembers(ts, ps, init, Select(ps, College, k));
    } else {
      DealtNothing(ts, ps);
    }
  }

  /** Team `j` after the deal: its members followed by its share. */
  lemma DealtMembers(ts: seq<Team>, ps: seq<Participant>, j: nat)
    requires j < |ts|
    ensures |Dealt(ts, ps)| == |ts|
    ensures Dealt(ts, ps)[j].members == ts[j].members + Share(ps, Keys(ps, College), j, |ts|)
  {
    assert Stride([], j, |ts|) == [];
  }

  /** Two team sequences that agree on every team's id, name and colour. */
  predicate SameHeaders(s: seq<Team>, t: seq<Team>) {
    |s| == |t| && forall j :: 0 <= j < |s| ==> s[j].(members := []) == t[j].(members := [])
  }

  lemma {:induction false} SameHeadersBags(s: seq<Team>, t: seq<Team>)
    requires SameHeaders(s, t)
    ensures Ids(s) == Ids(t)
    ensures AllPainted(s) ==> AllPainted(t)
  {
    if s != [] {
      assert SameHeaders(s[1..], t[1..]) by {
        forall j | 0 <= j < |s| - 1 ensures s[1..][j].(members := []) == t[1..][j].(members := []) {
          assert s[1..][j] == s[j + 1] && t[1..][j] == t[j + 1];
        }
      }
      SameHeadersBags(s[1..], t[1..]);
      assert s[0].id == t[0].id by {
        assert s[0].(members := []).id == t[0].(members := []).id;
      }
      if AllPainted(s) {
        forall u | u in t ensures Painted(u) {
          var j :| 0 <= j < |t| && t[j] == u;
          assert s[j].(members := []) == t[j].(members := []);
          assert s[j] in s;
        }
      }
    }
  }

  lemma PaintedPermutation(s: seq<Team>, t: seq<Team>)
    requires multiset(s) == multiset(t)
    ensures AllPainted(t) ==> AllPainted(s)
  {
    forall u | u in s ensures u in t {
      assert u in multiset(s);
    }
  }

  lemma PrefixTrans(a: seq<Participant>, b: seq<Participant>, c: seq<Participant>)
    requires a <= b && b <= c
    ensures a <= c
  {
    assert a == c[..|a|] by { assert b[..|a|] == c[..|a|]; }
  }

  // ---------------------------------------------------------------- sorting

  /** `t` placed into `s` after every team that is at least as large: one
      step of a stable insertion sort by non-increasing size. */
  function Insert(s: seq<Team>, t: Team): (r: seq<Team>)
    ensures |r| == |s| + 1
  {
    if s == [] || Size(s[|s| - 1]) >= Size(t) then s + [t]
    else Insert(s[..|s| - 1], t) + [s[|s| - 1]]
  }

  /** `teams.sort((a, b) => b.members.length - a.members.length)` on values.
      The comparator orders by size only, and the sort is stable, so the
      result is the insertion sort below: every stable sort with this
      comparator gives the same order. */
  function InsertionSorted(s: seq<Team>): (r: seq<Team>)
    ensures |r| == |s|
  {
    if s == [] then [] else Insert(InsertionSorted(s[..|s| - 1]), s[|s| - 1])
  }

  /** An insertion adds exactly the inserted team. */
  lemma {:induction false} InsertBag(s: seq<Team>, t: Team)
    ensures multiset(Insert(s, t)) == multiset(s) + multiset{t}
  {
    if !(s == [] || Size(s[|s| - 1]) >= Size(t)) {
      var init := s[..|s| - 1];
      assert s == init + [s[|s| - 1]];
      InsertBag(init, t);
    }
  }

  /** A team no larger than the last one can follow sorted teams. */
  lemma SnocSorted(s: seq<Team>, t: Team)
    requires SortedBySizeDesc(s) && (s == [] || Size(s[|s| - 1]) >= Size(t))
    ensures SortedBySizeDesc(s + [t])
  {
    var r := s + [t];
    forall p, q | 0 <= p < q < |r| ensures Size(r[p]) >= Size(r[q]) {
      if q == |s| && p < |s| - 1 {
        assert Size(s[p]) >= Size(s[|s| - 1]);
      }
    }
  }

  /** An insertion into sorted teams keeps them sorted. */
  lemma {:induction false} InsertSorted(s: seq<Team>, t: Team)
    requires SortedBySizeDesc(s)
    ensures SortedBySizeDesc(Insert(s, t))
  {
    if s == [] || Size(s[|s| - 1]) >= Size(t) {
      SnocSorted(s, t);
    } else {
      var init, last := s[..|s| - 1], s[|s| - 1];
      assert SortedBySizeDesc(init) by {
        forall p, q | 0 <= p < q < |init| ensures Size(init[p]) >= Size(init[q]) {
          assert init[p] == s[p] && init[q] == s[q];
        }
      }
      InsertSorted(init, t);
      InsertBag(init, t);
      var r := Insert(init, t);
      var y := r[|r| - 1];
      assert Size(y) >= Size(last) by {
        assert y in multiset(r);
        if y != t {
          assert y in multiset(init);
          var i :| 0 <= i < |init| && init[i] == y;
          assert Size(s[i]) >= Size(s[|s| - 1]);
        }
      }
      SnocSorted(r, last);
    }
  }

  /** The sort yields teams in non-increasing size order, and only
      reorders them. */
  lemma {:induction false} InsertionSortedSpec(s: seq<Team>)
    ensures SortedBySizeDesc(InsertionSorted(s))
    ensures multiset(InsertionSorted(s)) == multiset(s)
  {
    if s != [] {
      var init := s[..|s| - 1];
      InsertionSortedSpec(init);
      InsertSorted(InsertionSorted(init), s[|s| - 1]);
      InsertBag(InsertionSorted(init), s[|s| - 1]);
      assert s == init + [s[|s| - 1]];
    }
  }

  /** Teams already in size order are left exactly as they are. */
  lemma {:induction false} SortedUnchanged(s: seq<Team>)
    requires SortedBySizeDesc(s)
    ensures InsertionSorted(s) == s
  {
    if s != [] {
      var init := s[..|s| - 1];
      assert SortedBySizeDesc(init);
      SortedUnchanged(init);
      assert s == init + [s[|s| - 1]];
    }
  }

  /** Insertion lands just after the last team at least as large as the
      inserted one. */
  lemma {:induction false} InsertAt(s: seq<Team>, x: Team, j: nat)
    requires j <= |s| && (j == 0 || Size(s[j - 1]) >= Size(x))
    requires forall k :: j <= k < |s| ==> Size(s[k]) < Size(x)
    ensures Insert(s, x) == s[..j] + [x] + s[j..]
    decreases |s|
  {
    if j < |s| {
      var init := s[..|s| - 1];
      assert init[..j] == s[..j];
      InsertAt(init, x, j);
      assert s[j..] == init[j..] + [s[|s| - 1]];
    } else {
      assert s[..j] == s;
    }
  }

  /** One insertion step: `a[i]` moves left past every strictly smaller
      team, and the teams it passes shift right by one. */
  method SinkInto(a: array<Team>, i: nat)
    requires i < a.Length
    modifies a
    ensures a[..i + 1] == Insert(old(a[..i]), old(a[i]))
    ensures a[i + 1..] == old(a[i + 1..])
  {
    ghost var s, x, rest := a[..i], a[i], a[i + 1..];
    assert a[..] == s[..i] + [x] + s[i..] + rest;
    var j := i;
    while j > 0 && Size(a[j - 1]) < Size(a[j])
      invariant 0 <= j <= i
      invariant a[..] == s[..j] + [x] + s[j..] + rest
      invariant forall k :: j <= k < i ==> Size(s[k]) < Size(x)
    {
      SinkStep(s, x, rest, j);
      a[j - 1], a[j] := a[j], a[j - 1];
      j := j - 1;
    }
    InsertAt(s, x, j);
    Halves(s[..j] + [x] + s[j..], rest);
  }

  /** Swapping the inserted team with its left neighbour moves the insertion
      point one place left. */
  lemma SinkStep(s: seq<Team>, x: Team, rest: seq<Team>, j: nat)
    requires 0 < j <= |s|
    ensures var u := s[..j] + [x] + s[j..] + rest;
      && u[j - 1] == s[j - 1] && u[j] == x
      && u[j - 1 := x][j := s[j - 1]] == s[..j - 1] + [x] + s[j - 1..] + rest
  {
    var u := s[..j] + [x] + s[j..] + rest;
    var v := s[..j - 1] + [x] + s[j - 1..] + rest;
    assert |u| == |v|;
    forall k | 0 <= k < |u| ensures u[j - 1 := x][j := s[j - 1]][k] == v[k] {
      if k > j {
        assert u[k] == v[k];
      }
    }
  }

  lemma Halves(p: seq<Team>, q: seq<Team>)
    ensures (p + q)[..|p|] == p && (p + q)[|p|..] == q
  {
  }

  /** The sort in place: insertion into the sorted prefix, one team at a time. */
  method SortBySize(a: array<Team>)
    modifies a
    ensures a[..] == InsertionSorted(old(a[..]))
    ensures SortedBySizeDesc(a[..])
    ensures multiset(a[..]) == multiset(old(a[..]))
  {
    ghost var orig := a[..];
    for i := 0 to a.Length
      invariant a[..i] == InsertionSorted(orig[..i])
      invariant a[i..] == orig[i..]
    {
      ghost var before := a[..];
      assert before[i] == orig[i] by { assert a[i..][0] == orig[i..][0]; }
      assert before[i + 1..] == orig[i + 1..] by {
        assert before[i + 1..] == a[i..][1..] && orig[i + 1..] == orig[i..][1..];
      }
      SinkInto(a, i);
      assert orig[..i + 1][..i] == orig[..i];
    }
    assert a[..a.Length] == a[..] && orig[..a.Length] == orig;
    InsertionSortedSpec(orig);
  }

  // ------------------------------------------------------------ rebalancing

  /** One rebalancing move on values: the last member of the first team is
      popped and pushed onto the last team. */
  function PopPush(ts: seq<Team>): (r: seq<Team>)
    requires |ts| >= 2 && ts[0].members != []
    ensures |r| == |ts|
  {
    var first, last := ts[0], ts[|ts| - 1];
    var n := |first.members|;
    ts[0 := first.(members := first.members[..n - 1])]
      [|ts| - 1 := last.(members := last.members + [first.members[n - 1]])]
  }

  /** The popped member, and the first team without it. */
  lemma PopPushParts(ts: seq<Team>) returns (shrunk: Team, grown: Team, m: Participant)
    requires |ts| >= 2 && ts[0].members != []
    ensures PopPush(ts) == ts[0 := shrunk][|ts| - 1 := grown]
    ensures ts[0 := shrunk][|ts| - 1] == ts[|ts| - 1]
    ensures shrunk.id == ts[0].id && grown.id == ts[|ts| - 1].id
    ensures shrunk.name == ts[0].name && shrunk.color == ts[0].color
    ensures grown.name == ts[|ts| - 1].name && grown.color == ts[|ts| - 1].color
    ensures Size(shrunk) + 1 == Size(ts[0]) && Size(grown) == Size(ts[|ts| - 1]) + 1
    ensures multiset(ts[0].members) == multiset(shrunk.members) + multiset{m}
    ensures multiset(grown.members) == multiset(ts[|ts| - 1].members) + multiset{m}
  {
    var first, last := ts[0], ts[|ts| - 1];
    var n := |first.members|;
    m := first.members[n - 1];
    shrunk := first.(members := first.members[..n - 1]);
    grown := last.(members := last.members + [m]);
    assert first.members == shrunk.members + [m];
  }

  lemma PopPushMembers(ts: seq<Team>)
    requires |ts| >= 2 && ts[0].members != []
    ensures Members(PopPush(ts)) == Members(ts)
  {
    var shrunk, grown, m := PopPushParts(ts);
    var mid, r := ts[0 := shrunk], PopPush(ts);
    MembersUpdate(ts, 0, shrunk);
    MembersUpdate(mid, |ts| - 1, grown);
    forall x ensures Members(r)[x] == Members(ts)[x] {
      assert (Members(r) + multiset(ts[|ts| - 1].members))[x] == (Members(mid) + multiset(grown.members))[x];
      assert (Members(mid) + multiset(ts[0].members))[x] == (Members(ts) + multiset(shrunk.members))[x];
    }
  }

  lemma PopPushIds(ts: seq<Team>)
    requires |ts| >= 2 && ts[0].members != []
    ensures Ids(PopPush(ts)) == Ids(ts)
  {
    var shrunk, grown, _ := PopPushParts(ts);
    var mid, r := ts[0 := shrunk], PopPush(ts);
    IdsUpdate(ts, 0, shrunk);
    IdsUpdate(mid, |ts| - 1, grown);
    forall x ensures Ids(r)[x] == Ids(ts)[x] {
      assert (Ids(r) + multiset{ts[|ts| - 1].id})[x] == (Ids(mid) + multiset{grown.id})[x];
      assert (Ids(mid) + multiset{ts[0].id})[x] == (Ids(ts) + multiset{shrunk.id})[x];
    }
  }

  /** A move keeps the members, the ids and the palette, and brings the two
      teams it touches one step each closer to the base size. */
  lemma PopPushSpec(ts: seq<Team>, base: int)
    requires |ts| >= 2 && Size(ts[0]) > base + 1 && Size(ts[|ts| - 1]) < base
    ensures Members(PopPush(ts)) == Members(ts)
    ensures Ids(PopPush(ts)) == Ids(ts)
    ensures AllPainted(ts) ==> AllPainted(PopPush(ts))
    ensures Deviation(PopPush(ts), base) + 2 == Deviation(ts, base)
  {
    PopPushMembers(ts);
    PopPushIds(ts);
    PopPushDeviation(ts, base);
    if AllPainted(ts) {
      PopPushPainted(ts);
    }
  }

  lemma PopPushDeviation(ts: seq<Team>, base: int)
    requires |ts| >= 2 && Size(ts[0]) > base + 1 && Size(ts[|ts| - 1]) < base
    ensures Deviation(PopPush(ts), base) + 2 == Deviation(ts, base)
  {
    var shrunk, grown, _ := PopPushParts(ts);
    DeviationUpdate(ts, 0, shrunk, base);
    DeviationUpdate(ts[0 := shrunk], |ts| - 1, grown, base);
    assert Abs(Size(shrunk) - base) + 1 == Abs(Size(ts[0]) - base);
    assert Abs(Size(grown) - base) + 1 == Abs(Size(ts[|ts| - 1]) - base);
  }

  lemma PopPushPainted(ts: seq<Team>)
    requires |ts| >= 2 && ts[0].members != [] && AllPainted(ts)
    ensures AllPainted(PopPush(ts))
  {
    var shrunk, grown, _ := PopPushParts(ts);
    var r := PopPush(ts);
    forall k | 0 <= k < |r| ensures Painted(r[k]) {
      assert ts[k] in ts;
    }
  }

  /** The move in place on the team array. */
  method MoveLastMember(teams: array<Team>, baseSize: int)
    requires teams.Length >= 2
    requires Size(teams[0]) > baseSize + 1 && Size(teams[teams.Length - 1]) < baseSize
    modifies teams
    ensures teams[..] == PopPush(old(teams[..]))
  {
    var last := teams.Length - 1;
    var largestTeam := teams[0];
    var smallestTeam := teams[last];
    var n := |largestTeam.members|;
    var member := largestTeam.members[n - 1];
    teams[0] := largestTeam.(members := largestTeam.members[..n - 1]);
    teams[last] := smallestTeam.(members := smallestTeam.members + [member]);
  }

  /** Sorted teams need no move once the first is at most base + 1 or the
      last at least base. */
  lemma SortedNoMove(ts: seq<Team>, base: int)
    requires |ts| >= 1 && SortedBySizeDesc(ts)
    requires Size(ts[0]) <= base + 1 || Size(ts[|ts| - 1]) >= base
    ensures !MoveNeeded(ts, base)
  {
    if Size(ts[0]) <= base + 1 {
      forall i | 0 <= i < |ts| ensures Size(ts[i]) <= base + 1 {
        if i > 0 { assert Size(ts[0]) >= Size(ts[i]); }
      }
    } else {
      forall j | 0 <= j < |ts| ensures Size(ts[j]) >= base {
        if j < |ts| - 1 { assert Size(ts[j]) >= Size(ts[|ts| - 1]); }
      }
    }
  }

  /** Whether a move is needed does not depend on the order of the teams. */
  lemma MovePermutation(s: seq<Team>, t: seq<Team>, base: int)
    requires multiset(s) == multiset(t) && MoveNeeded(s, base)
    ensures MoveNeeded(t, base)
  {
    var i :| 0 <= i < |s| && Size(s[i]) > base + 1;
    var j :| 0 <= j < |s| && Size(s[j]) < base;
    assert s[i] in multiset(t) && s[j] in multiset(t);
    var i' :| 0 <= i' < |t| && t[i'] == s[i];
    var j' :| 0 <= j' < |t| && t[j'] == s[j];
  }

  /** `cur` holds the members and ids of `orig`, and keeps its palette. */
  predicate Keeps(orig: seq<Team>, cur: seq<Team>) {
    Members(cur) == Members(orig) && Ids(cur) == Ids(orig)
    && (AllPainted(orig) ==> AllPainted(cur))
  }

  lemma KeepsPermutation(orig: seq<Team>, cur: seq<Team>, s: seq<Team>, base: int)
    requires Keeps(orig, cur) && multiset(s) == multiset(cur)
    ensures Keeps(orig, s) && Deviation(s, base) == Deviation(cur, base)
  {
    BagsOfPermutation(s, cur, base);
    PaintedPermutation(s, cur);
  }

  lemma KeepsPopPush(orig: seq<Team>, cur: seq<Team>, base: int)
    requires Keeps(orig, cur)
    requires |cur| >= 2 && Size(cur[0]) > base + 1 && Size(cur[|cur| - 1]) < base
    ensures Keeps(orig, PopPush(cur)) && Deviation(PopPush(cur), base) < Deviation(cur, base)
  {
    PopPushSpec(cur, base);
  }

  /** The rebalancing loop on values, from teams sorted by size: while the
      first team is above base + 1 and the last below base, move the first
      team's last member onto the last team and sort again. */
  function Rebalanced(ts: seq<Team>, base: int): (r: seq<Team>)
    requires |ts| >= 1
    ensures |r| == |ts|
    decreases Deviation(ts, base)
  {
    if Size(ts[0]) > base + 1 && Size(ts[|ts| - 1]) < base then
      var moved := PopPush(ts);
      PopPushDeviation(ts, base);
      InsertionSortedSpec(moved);
      BagsOfPermutation(InsertionSorted(moved), moved, base);
      Rebalanced(InsertionSorted(moved), base)
    else ts
  }

  /** Rebalancing sorted teams keeps their members, ids and palette, leaves
      them sorted with no move needed, and changes nothing when no move was
      needed to begin with. */
  lemma RebalancedSpec(ts: seq<Team>, base: int)
    requires |ts| >= 1 && SortedBySizeDesc(ts)
    ensures Keeps(ts, Rebalanced(ts, base))
    ensures SortedBySizeDesc(Rebalanced(ts, base)) && !MoveNeeded(Rebalanced(ts, base), base)
    ensures !MoveNeeded(ts, base) ==> Rebalanced(ts, base) == ts
    decreases Deviation(ts, base)
  {
    if Size(ts[0]) > base + 1 && Size(ts[|ts| - 1]) < base {
      var moved := PopPush(ts);
      var next := InsertionSorted(moved);
      KeepsPopPush(ts, ts, base);
      InsertionSortedSpec(moved);
      KeepsPermutation(ts, moved, next, base);
      RebalancedSpec(next, base);
      assert MoveNeeded(ts, base);
    } else {
      SortedNoMove(ts, base);
    }
  }

  /** One loop step: a move, then a re-sort. */
  method MoveAndSort(teams: array<Team>, baseSize: int, ghost orig: seq<Team>)
    requires teams.Length >= 2 && Keeps(orig, teams[..])
    requires Size(teams[0]) > baseSize + 1 && Size(teams[teams.Length - 1]) < baseSize
    modifies teams
    ensures teams[..] == InsertionSorted(PopPush(old(teams[..])))
    ensures SortedBySizeDesc(teams[..]) && Keeps(orig, teams[..])
    ensures Deviation(teams[..], baseSize) < Deviation(old(teams[..]), baseSize)
  {
    KeepsPopPush(orig, teams[..], baseSize);
    MoveLastMember(teams, baseSize);
    ghost var moveDone := teams[..];
    SortBySize(teams);
    KeepsPermutation(orig, moveDone, teams[..], baseSize);
  }

  /** Move one member at a time from the largest team to the smallest while
      the largest exceeds base + 1 and the smallest is below base, re-sorting
      after each move. */
  method RebalanceTeamSizes(teams: array<Team>, baseSize: int)
    requires teams.Length >= 1
    modifies teams
    ensures teams[..] == Rebalanced(InsertionSorted(old(teams[..])), baseSize)
    ensures SortedBySizeDesc(teams[..])
    ensures !MoveNeeded(teams[..], baseSize)
    ensures Keeps(old(teams[..]), teams[..])
    ensures !MoveNeeded(old(teams[..]), baseSize) ==>
      teams[..] == InsertionSorted(old(teams[..])) && multiset(teams[..]) == multiset(old(teams[..]))
  {
    ghost var orig := teams[..];
    SortBySize(teams);
    ghost var sorted := teams[..];
    KeepsPermutation(orig, orig, sorted, baseSize);
    var last := teams.Length - 1;
    while Size(teams[0]) > baseSize + 1
      invariant SortedBySizeDesc(teams[..]) && Keeps(orig, teams[..])
      invariant Rebalanced(teams[..], baseSize) == Rebalanced(sorted, baseSize)
      decreases Deviation(teams[..], baseSize)
    {
      if Size(teams[last]) < baseSize {
        MoveAndSort(teams, baseSize, orig);
      } else {
        break;
      }
    }
    SortedNoMove(teams[..], baseSize);
    RebalancedSpec(sorted, baseSize);
    if !MoveNeeded(orig, baseSize) && MoveNeeded(sorted, baseSize) {
      MovePermutation(sorted, orig, baseSize);
    }
  }

  // ---------------------------------------------------------- distribution

  /** `teams.reduce((min, team) => team.members.length < min.members.length ? team : min)`
      on values: a later team replaces the current minimum only when it is
      strictly smaller. */
  function FirstSmallest(ts: seq<Team>): (k: nat)
    requires |ts| >= 1
    ensures k < |ts|
  {
    if |ts| == 1 then 0
    else
      var k := FirstSmallest(ts[..|ts| - 1]);
      if Size(ts[|ts| - 1]) < Size(ts[k]) then |ts| - 1 else k
  }

  /** `k` is a team of smallest size. */
  predicate IsSmallest(ts: seq<Team>, k: nat) {
    k < |ts| && forall j :: 0 <= j < |ts| ==> Size(ts[k]) <= Size(ts[j])
  }

  /** The reduction finds the first team of smallest size. */
  lemma {:induction false} FirstSmallestSpec(ts: seq<Team>)
    requires |ts| >= 1
    ensures IsSmallest(ts, FirstSmallest(ts))
    ensures forall j :: 0 <= j < FirstSmallest(ts) ==> Size(ts[FirstSmallest(ts)]) < Size(ts[j])
  {
    if |ts| > 1 {
      var init := ts[..|ts| - 1];
      FirstSmallestSpec(init);
      assert forall j :: 0 <= j < |init| ==> init[j] == ts[j];
    }
  }

  /** The reduction in place over the team array. */
  method IndexOfSmallest(teams: array<Team>) returns (k: nat)
    requires teams.Length >= 1
    ensures k == FirstSmallest(teams[..])
    ensures k < teams.Length
    ensures forall j :: 0 <= j < teams.Length ==> Size(teams[k]) <= Size(teams[j])
    ensures forall j :: 0 <= j < k ==> Size(teams[k]) < Size(teams[j])
  {
    k := 0;
    for j := 1 to teams.Length
      invariant k == FirstSmallest(teams[..j])
    {
      assert teams[..j + 1][..j] == teams[..j];
      if Size(teams[j]) < Size(teams[k]) {
        k := j;
      }
    }
    assert teams[..teams.Length] == teams[..];
    FirstSmallestSpec(teams[..]);
  }

  /** The teams after pushing `p` onto team `k`. */
  function PushMember(ts: seq<Team>, k: nat, p: Participant): seq<Team>
    requires k < |ts|
  {
    ts[k := ts[k].(members := ts[k].members + [p])]
  }

  /** The gender path on values: each participant of `s`, in order, is
      pushed onto the first smallest team. */
  function FillSmallest(ts: seq<Team>, s: seq<Participant>): (r: seq<Team>)
    requires |ts| >= 1
    ensures |r| == |ts|
  {
    if s == [] then ts
    else
      var t := FillSmallest(ts, s[..|s| - 1]);
      PushMember(t, FirstSmallest(t), s[|s| - 1])
  }

  /** Filling with `a` and then with `b` is filling with `a + b`. */
  lemma {:induction false} FillSmallestConcat(ts: seq<Team>, a: seq<Participant>, b: seq<Participant>)
    requires |ts| >= 1
    ensures FillSmallest(ts, a + b) == FillSmallest(FillSmallest(ts, a), b)
  {
    if b == [] {
      assert a + b == a;
    } else {
      var init := b[..|b| - 1];
      FillSmallestConcat(ts, a, init);
      assert (a + b)[..|a + b| - 1] == a + init;
      assert (a + b)[|a + b| - 1] == b[|b| - 1];
    }
  }

  /** `cur` grew out of `orig` by appending the participants `bag` to the
      teams: same headers, every old member list a prefix of the new one,
      and balance kept. */
  predicate Extends(orig: seq<Team>, cur: seq<Team>, bag: multiset<Participant>) {
    && SameHeaders(orig, cur)
    && (forall j :: 0 <= j < |orig| ==> orig[j].members <= cur[j].members)
    && (Balanced(orig) ==> Balanced(cur))
    && Members(cur) == Members(orig) + bag
  }

  lemma ExtendsRefl(ts: seq<Team>)
    ensures Extends(ts, ts, multiset{})
  {
  }

  lemma ExtendsTrans(a: seq<Team>, b: seq<Team>, c: seq<Team>, x: multiset<Participant>, y: multiset<Participant>)
    requires Extends(a, b, x) && Extends(b, c, y)
    ensures Extends(a, c, x + y)
  {
    forall j | 0 <= j < |a| ensures a[j].members <= c[j].members {
      PrefixTrans(a[j].members, b[j].members, c[j].members);
    }
  }

  /** Pushing onto a smallest team keeps the sizes within one of each other. */
  lemma PushSmallestBalanced(ts: seq<Team>, k: nat, p: Participant)
    requires IsSmallest(ts, k) && Balanced(ts)
    ensures Balanced(PushMember(ts, k, p))
  {
    var u := PushMember(ts, k, p);
    forall i, j | 0 <= i < |u| && 0 <= j < |u| ensures Size(u[i]) <= Size(u[j]) + 1 {
      assert Size(ts[i]) <= Size(ts[k]) + 1;
      assert Size(ts[k]) <= Size(ts[j]);
    }
  }

  /** Pushing adds exactly the pushed member. */
  lemma PushMembers(ts: seq<Team>, k: nat, p: Participant)
    requires k < |ts|
    ensures Members(PushMember(ts, k, p)) == Members(ts) + multiset{p}
  {
    var u := PushMember(ts, k, p);
    MembersUpdate(ts, k, u[k]);
    forall x ensures Members(u)[x] == (Members(ts) + multiset{p})[x] {
      assert (Members(u) + multiset(ts[k].members))[x] == (Members(ts) + multiset(u[k].members))[x];
    }
  }

  /** Pushing onto a smallest team extends the teams by that member. */
  lemma PushSmallestExtends(ts: seq<Team>, k: nat, p: Participant)
    requires IsSmallest(ts, k)
    ensures Extends(ts, PushMember(ts, k, p), multiset{p})
  {
    if Balanced(ts) {
      PushSmallestBalanced(ts, k, p);
    }
    PushMembers(ts, k, p);
    var u := PushMember(ts, k, p);
    assert SameHeaders(ts, u);
    assert forall j :: 0 <= j < |ts| ==> ts[j].members <= u[j].members;
  }

  /** Filling appends exactly the participants, keeps the headers and the
      old members in front, and keeps balanced teams balanced. */
  lemma {:induction false} FillSmallestExtends(ts: seq<Team>, s: seq<Participant>)
    requires |ts| >= 1
    ensures Extends(ts, FillSmallest(ts, s), multiset(s))
  {
    if s == [] {
      ExtendsRefl(ts);
    } else {
      var init, p := s[..|s| - 1], s[|s| - 1];
      FillSmallestExtends(ts, init);
      var t := FillSmallest(ts, init);
      FirstSmallestSpec(t);
      PushSmallestExtends(t, FirstSmallest(t), p);
      ExtendsTrans(ts, t, FillSmallest(ts, s), multiset(init), multiset{p});
      assert s == init + [p];
    }
  }

  /** Push `p` onto the first smallest team. */
  method AddToSmallest(teams: array<Team>, p: Participant) returns (k: nat)
    requires teams.Length >= 1
    modifies teams
    ensures k == FirstSmallest(old(teams[..]))
    ensures IsSmallest(old(teams[..]), k)
    ensures forall j :: 0 <= j < k ==> Size(old(teams[k])) < Size(old(teams[j]))
    ensures teams[..] == PushMember(old(teams[..]), k, p)
  {
    k := IndexOfSmallest(teams);
    teams[k] := teams[k].(members := teams[k].members + [p]);
  }

  /** Each member of `group`, in order, goes to the first smallest team. */
  method AddEachToSmallest(group: seq<Participant>, teams: array<Team>)
    requires teams.Length >= 1
    modifies teams
    ensures teams[..] == FillSmallest(old(teams[..]), group)
    ensures Extends(old(teams[..]), teams[..], multiset(group))
  {
    ghost var orig := teams[..];
    for i := 0 to |group|
      invariant teams[..] == FillSmallest(orig, group[..i])
    {
      var k := AddToSmallest(teams, group[i]);
      assert group[..i + 1][..i] == group[..i];
    }
    assert group[..|group|] == group;
    FillSmallestExtends(orig, group);
  }

  /** Gender groups in key order; each member goes to the first smallest
      team. The grouping throws on an inherited gender before any team is
      touched. */
  method DistributeWithGenderBalance(participants: seq<Participant>, teams: array<Team>) returns (thrown: bool)
    requires teams.Length >= 1
    modifies teams
    ensures thrown <==> !Groupable(participants, Gender)
    ensures thrown ==> teams[..] == old(teams[..])
    ensures !thrown ==>
      teams[..] == FillSmallest(old(teams[..]), Grouped(participants, Gender, Keys(participants, Gender)))
    ensures !thrown ==> Extends(old(teams[..]), teams[..], multiset(participants))
  {
    ghost var orig := teams[..];
    var keys, groups;
    thrown, keys, groups := GroupBy(participants, Gender);
    if thrown {
      return;
    }
    for g := 0 to |keys|
      invariant teams[..] == FillSmallest(orig, Grouped(participants, Gender, keys[..g]))
    {
      var group := groups[keys[g]];
      AddEachToSmallest(group, teams);
      FillSmallestConcat(orig, Grouped(participants, Gender, keys[..g]), group);
      GroupedNext(participants, Gender, keys, g);
    }
    assert keys[..|keys|] == keys;
    GroupsPartition(participants, Gender);
    FillSmallestExtends(orig, Grouped(participants, Gender, keys));
  }

  /** Deal `group` round-robin from team 0: member `index` goes to team
      `index % n`. */
  method DealGroup(ghost orig: seq<Team>, ghost ps: seq<Participant>, ghost ks: seq<string>,
                   group: seq<Participant>, teams: array<Team>)
    requires teams.Length >= 1 && |orig| == teams.Length
    requires teams[..] == PartlyDealt(orig, ps, ks, [])
    modifies teams
    ensures teams[..] == PartlyDealt(orig, ps, ks, group)
  {
    var n := teams.Length;
    for index := 0 to |group|
      invariant teams[..] == PartlyDealt(orig, ps, ks, group[..index])
    {
      var teamIndex := index % n;
      ghost var before := teams[..];
      teams[teamIndex] := teams[teamIndex].(members := teams[teamIndex].members + [group[index]]);
      assert teams[..] == PushMember(before, teamIndex, group[index]);
      DealOne(orig, ps, ks, group[..index], group[index]);
      assert group[..index + 1] == group[..index] + [group[index]];
    }
    assert group[..|group|] == group;
  }

  /** Each college group, in order, is dealt round-robin from team 0. */
  method DealRoundRobin(ps: seq<Participant>, keys: seq<string>, groups: map<string, seq<Participant>>, teams: array<Team>)
    requires teams.Length >= 1
    requires keys == Keys(ps, College)
    requires forall k :: k in keys ==> k in groups && groups[k] == Select(ps, College, k)
    modifies teams
    ensures teams[..] == Dealt(old(teams[..]), ps)
    ensures Members(teams[..]) == Members(old(teams[..])) + multiset(ps)
  {
    ghost var orig := teams[..];
    DealtNothing(orig, ps);
    for g := 0 to |keys|
      invariant teams[..] == PartlyDealt(orig, ps, keys[..g], [])
    {
      var group := groups[keys[g]];
      DealGroup(orig, ps, keys[..g], group, teams);
      DealNextGroup(orig, ps, keys, g);
    }
    assert keys[..|keys|] == keys;
    PartlyDealtMembers(orig, ps, keys, []);
    GroupsPartition(ps, College);
  }

  /** College groups dealt round-robin, then sizes rebalanced. The grouping
      throws on an inherited college before any team is touched. */
  method DistributeWithDiversityFocus(participants: seq<Participant>, teams: array<Team>, baseSize: int)
    returns (thrown: bool)
    requires teams.Length >= 1
    modifies teams
    ensures thrown <==> !Groupable(participants, College)
    ensures thrown ==> teams[..] == old(teams[..])
    ensures !thrown ==>
      teams[..] == Rebalanced(InsertionSorted(Dealt(old(teams[..]), participants)), baseSize)
    ensures !thrown ==> Members(teams[..]) == Members(old(teams[..])) + multiset(participants)
    ensures !thrown ==> Ids(teams[..]) == Ids(old(teams[..]))
    ensures !thrown ==> (AllPainted(old(teams[..])) ==> AllPainted(teams[..]))
    ensures !thrown ==> SortedBySizeDesc(teams[..]) && !MoveNeeded(teams[..], baseSize)
    ensures !thrown && !MoveNeeded(Dealt(old(teams[..]), participants), baseSize) ==>
      teams[..] == InsertionSorted(Dealt(old(teams[..]), participants))
  {
    ghost var orig := teams[..];
    var keys, groups;
    thrown, keys, groups := GroupBy(participants, College);
    if thrown {
      return;
    }
    DealRoundRobin(participants, keys, groups, teams);
    assert SameHeaders(orig, teams[..]);
    SameHeadersBags(orig, teams[..]);
    RebalanceTeamSizes(teams, baseSize);
  }

  // ------------------------------------------------------------ the engine

  /** What a run over non-empty input with at least one team guarantees:
      the teams carry ids 0 .. numTeams-1 once each with their palette
      entries, hold exactly the input participants, and are scored. */
  predicate WellFormed(a: TeamAssignment, participants: seq<Participant>, numTeams: nat) {
    && |a.teams| == numTeams
    && Ids(a.teams) == IdRange(numTeams)
    && AllPainted(a.teams)
    && Members(a.teams) == multiset(participants)
    && a.diversityScore == DiversityScore(a.teams)
    && a.genderBalanceScore == GenderBalanceScore(a.teams)
  }

  /** The team-creation loop: team `i` gets id `i` and palette entry `i % 10`. */
  method CreateTeams(n: nat) returns (teams: array<Team>)
    ensures fresh(teams)
    ensures teams[..] == NewTeams(n)
  {
    teams := new Team[n];
    for i := 0 to n
      invariant forall j :: 0 <= j < i ==> teams[j] == NewTeam(j)
    {
      teams[i] := NewTeam(i);
    }
    NewTeamsSpec(n);
  }

  /** The grouping field of the strategy `c` selects. */
  function PathField(c: ShuffleConfig): Field {
    if UseGenderPath(c) then Gender else College
  }

  /** Teams with both scores attached. */
  function Scored(ts: seq<Team>): Outcome {
    Assigned(TeamAssignment(ts, DiversityScore(ts), GenderBalanceScore(ts)))
  }

  /** The engine on values, for the participants in the order `order`. */
  function Shuffled(order: seq<Participant>, config: ShuffleConfig): Outcome
  {
    if order == [] then Assigned(TeamAssignment([], Num(0), Num(0)))
    else if config.numTeams <= 0 || !Groupable(order, PathField(config)) then Threw
    else
      var start := NewTeams(config.numTeams);
      if UseGenderPath(config) then
        Scored(FillSmallest(start, Grouped(order, Gender, Keys(order, Gender))))
      else
        Scored(Rebalanced(InsertionSorted(Dealt(start, order)), |order| / config.numTeams))
  }

  /** What the engine promises for `participants`, reordered into `order`:
      the empty input gives no teams and zero scores; otherwise it throws
      exactly when there is no team or a grouping key is an inherited name,
      and else returns well-formed teams, balanced and in id order on the
      gender path, sorted with no move left (and exactly the sorted deal
      when none was needed) on the diversity path. */
  predicate ShuffleResult(participants: seq<Participant>, order: seq<Participant>, config: ShuffleConfig, r: Outcome)
  {
    var n := config.numTeams;
    && (participants == [] ==> r == Assigned(TeamAssignment([], Num(0), Num(0))))
    && (participants != [] ==> (r.Threw? <==> n <= 0 || !Groupable(participants, PathField(config))))
    && (participants != [] && r.Assigned? ==> n >= 1 && WellFormed(r.assignment, participants, n))
    && (participants != [] && r.Assigned? && n >= 1 && UseGenderPath(config) ==>
          && (forall j :: 0 <= j < |r.assignment.teams| ==> r.assignment.teams[j].id == j)
          && Balanced(r.assignment.teams)
          && (forall j :: 0 <= j < |r.assignment.teams| ==>
                |participants| / n <= Size(r.assignment.teams[j]) <= |participants| / n + 1)
          && r.assignment.genderBalanceScore.Num?)
    && (participants != [] && r.Assigned? && n >= 1 && !UseGenderPath(config) ==>
          && SortedBySizeDesc(r.assignment.teams)
          && !MoveNeeded(r.assignment.teams, |participants| / n)
          && (!MoveNeeded(Dealt(NewTeams(n), order), |participants| / n) ==>
                r.assignment.teams == InsertionSorted(Dealt(NewTeams(n), order))))
  }

  /** Fresh teams extended by every participant: ids 0 .. n-1 in order,
      palette entries, exactly the participants, sizes within one of each
      other and of |ps| / n. */
  lemma GenderPathOutcome(ts: seq<Team>, ps: seq<Participant>, n: nat)
    requires n >= 1 && Extends(NewTeams(n), ts, multiset(ps))
    ensures |ts| == n && Ids(ts) == IdRange(n) && AllPainted(ts)
    ensures Members(ts) == multiset(ps)
    ensures forall j :: 0 <= j < n ==> ts[j].id == j
    ensures Balanced(ts)
    ensures forall j :: 0 <= j < n ==> |ps| / n <= Size(ts[j]) <= |ps| / n + 1
  {
    NewTeamsSpec(n);
    SameHeadersBags(NewTeams(n), ts);
    forall j | 0 <= j < n ensures ts[j].id == j {
      assert NewTeams(n)[j].(members := []) == ts[j].(members := []);
    }
    assert |Members(ts)| == |ps|;
    BalancedSizesNearBase(ts);
  }

  /** Teams that hold exactly `ps`, none of whose genders is inherited,
      have a gender-balance score that is a number. */
  lemma NoGarbledTeam(ts: seq<Team>, ps: seq<Participant>)
    requires Members(ts) == multiset(ps) && Groupable(ps, Gender)
    ensures GenderBalanceScore(ts).Num?
  {
    assert !AnyGarbled(ts) by {
      forall t, p | t in ts && p in t.members ensures !Garbling(p.gender) {
        InTeamIsMember(ts, t, p);
        assert p in multiset(ps);
        assert p in ps && KeyOf(p, Gender) == p.gender;
      }
    }
    GenderBalanceScoreRange(ts);
  }

  /** The gender path of `Shuffled` keeps every promise of `ShuffleResult`. */
  lemma ShuffledGenderPath(participants: seq<Participant>, order: seq<Participant>, config: ShuffleConfig)
    requires multiset(order) == multiset(participants) && participants != []
    requires config.numTeams >= 1 && UseGenderPath(config) && Groupable(order, Gender)
    ensures Shuffled(order, config) == Scored(FillSmallest(NewTeams(config.numTeams), Grouped(order, Gender, Keys(order, Gender))))
    ensures ShuffleResult(participants, order, config, Shuffled(order, config))
  {
    var n := config.numTeams;
    var ts := FillSmallest(NewTeams(n), Grouped(order, Gender, Keys(order, Gender)));
    GroupsPartition(order, Gender);
    FillSmallestExtends(NewTeams(n), Grouped(order, Gender, Keys(order, Gender)));
    GenderPathOutcome(ts, participants, n);
    GroupablePermutation(order, participants, Gender);
    NoGarbledTeam(ts, participants);
  }

  /** The deal onto fresh teams holds exactly the participants, with the
      fresh teams' ids and palette. */
  lemma DealtKeeps(n: nat, order: seq<Participant>)
    requires n >= 1
    ensures Members(Dealt(NewTeams(n), order)) == multiset(order)
    ensures Ids(Dealt(NewTeams(n), order)) == IdRange(n) && AllPainted(Dealt(NewTeams(n), order))
  {
    var start := NewTeams(n);
    var dealt := Dealt(start, order);
    NewTeamsSpec(n);
    PartlyDealtMembers(start, order, Keys(order, College), []);
    GroupsPartition(order, College);
    DealtHeaders(start, order);
    SameHeadersBags(start, dealt);
  }

  /** The deal changes members only. */
  lemma DealtHeaders(ts: seq<Team>, ps: seq<Participant>)
    requires |ts| > 0
    ensures SameHeaders(ts, Dealt(ts, ps))
  {
    var d := Dealt(ts, ps);
    forall j | 0 <= j < |ts| ensures ts[j].(members := []) == d[j].(members := []) {
    }
  }

  /** The diversity path's teams: the fresh teams' ids and palette, exactly
      the participants, sorted with no move left, and the sorted deal itself
      when the deal needed no move. */
  lemma DiversityTeams(n: nat, order: seq<Participant>, base: int)
    requires n >= 1
    ensures var dealt := Dealt(NewTeams(n), order);
      var ts := Rebalanced(InsertionSorted(dealt), base);
      && |ts| == n && Ids(ts) == IdRange(n) && AllPainted(ts) && Members(ts) == multiset(order)
      && SortedBySizeDesc(ts) && !MoveNeeded(ts, base)
      && (!MoveNeeded(dealt, base) ==> ts == InsertionSorted(dealt))
  {
    var dealt := Dealt(NewTeams(n), order);
    var sorted := InsertionSorted(dealt);
    DealtKeeps(n, order);
    InsertionSortedSpec(dealt);
    KeepsPermutation(dealt, dealt, sorted, base);
    RebalancedSpec(sorted, base);
    if !MoveNeeded(dealt, base) && MoveNeeded(sorted, base) {
      MovePermutation(sorted, dealt, base);
    }
  }

  /** The diversity path of `Shuffled` keeps every promise of `ShuffleResult`. */
  lemma ShuffledDiversityPath(participants: seq<Participant>, order: seq<Participant>, config: ShuffleConfig)
    requires multiset(order) == multiset(participants) && participants != []
    requires config.numTeams >= 1 && !UseGenderPath(config) && Groupable(order, College)
    ensures ShuffleResult(participants, order, config, Shuffled(order, config))
  {
    var n := config.numTeams;
    assert |order| == |participants| by {
      assert |multiset(order)| == |multiset(participants)|;
    }
    var base := |order| / n;
    DiversityTeams(n, order, base);
    GroupablePermutation(order, participants, College);
  }

  /** On the diversity path a participant whose gender is an inherited name
      other than `__proto__` makes the gender-balance score NaN. */
  lemma InheritedGenderNaN(ps: seq<Participant>, p: Participant, config: ShuffleConfig)
    requires p in ps && p.gender == "toString"
    requires config.numTeams >= 1 && !UseGenderPath(config) && Groupable(ps, College)
    ensures Shuffled(ps, config).Assigned?
    ensures Shuffled(ps, config).assignment.genderBalanceScore == NaN
  {
    var n := config.numTeams;
    var ts := Rebalanced(InsertionSorted(Dealt(NewTeams(n), ps)), |ps| / n);
    DiversityTeams(n, ps, |ps| / n);
    assert p in Members(ts);
    InSomeTeam(ts, p);
    var t :| t in ts && p in t.members;
    assert Garbling(p.gender);
    assert Garbled(t.members);
    GenderBalanceScoreRange(ts);
  }

  /** Grouping throws for a permutation exactly when it throws for the original. */
  lemma GroupablePermutation(s: seq<Participant>, t: seq<Participant>, f: Field)
    requires multiset(s) == multiset(t)
    ensures Groupable(s, f) <==> Groupable(t, f)
  {
    forall p ensures p in s <==> p in t {
      assert p in s <==> p in multiset(s);
      assert p in t <==> p in multiset(t);
    }
  }

  /** `Shuffled` keeps every promise of `ShuffleResult`. */
  lemma ShuffledSpec(participants: seq<Participant>, order: seq<Participant>, config: ShuffleConfig)
    requires multiset(order) == multiset(participants)
    ensures ShuffleResult(participants, order, config, Shuffled(order, config))
  {
    assert participants == [] <==> order == [] by {
      assert |multiset(order)| == |multiset(participants)|;
    }
    GroupablePermutation(order, participants, PathField(config));
    if participants != [] && config.numTeams >= 1 && Groupable(order, PathField(config)) {
      if UseGenderPath(config) {
        ShuffledGenderPath(participants, order, config);
      } else {
        ShuffledDiversityPath(participants, order, config);
      }
    }
  }

  /** Fewer members than teams leaves a team empty, which makes the
      diversity score NaN. */
  lemma FewerMembersThanTeamsNaN(ts: seq<Team>)
    requires |Members(ts)| < |ts|
    ensures HasEmptyTeam(ts)
    ensures DiversityScore(ts) == NaN
  {
    if !HasEmptyTeam(ts) {
      forall j | 0 <= j < |ts| ensures 1 <= Size(ts[j]) {
        assert ts[j].members != [];
      }
      TotalAtLeast(ts, 1);
    }
  }

  /** A run with fewer participants than teams reports a NaN diversity score. */
  lemma FewerParticipantsThanTeamsNaN(a: TeamAssignment, ps: seq<Participant>, n: nat)
    requires WellFormed(a, ps, n) && |ps| < n
    ensures a.diversityScore == NaN
  {
    assert |Members(a.teams)| == |ps|;
    FewerMembersThanTeamsNaN(a.teams);
  }

  /** A participant listed once lands in exactly one team. */
  lemma EachParticipantInOneTeam(a: TeamAssignment, ps: seq<Participant>, n: nat, p: Participant)
    requires WellFormed(a, ps, n) && multiset(ps)[p] == 1
    ensures exists i :: 0 <= i < |a.teams| && p in a.teams[i].members
    ensures forall i, j :: 0 <= i < |a.teams| && 0 <= j < |a.teams| && p in a.teams[i].members && p in a.teams[j].members ==> i == j
  {
    InExactlyOneTeam(a.teams, p);
  }

  /** The engine. `order` stands for the random reorderings: any
      permutation of the participants. A team count of zero or less makes
      the distribution throw (a `reduce` over no teams, or an index that is
      NaN), and so does a college or gender named like an inherited
      property on the path that groups by it. */
  method Shuffle(participants: seq<Participant>, order: seq<Participant>, config: ShuffleConfig)
    returns (r: Outcome)
    requires multiset(order) == multiset(participants)
    ensures r == Shuffled(order, config)
    ensures ShuffleResult(participants, order, config, r)
  {
    ShuffledSpec(participants, order, config);
    assert |order| == |participants| by {
      assert |multiset(order)| == |multiset(participants)|;
    }
    if |participants| == 0 {
      return Assigned(TeamAssignment([], Num(0), Num(0)));
    }
    var numTeams := if config.numTeams > 0 then config.numTeams else 0;
    var teams := CreateTeams(numTeams);
    if numTeams == 0 {
      return Threw;
    }
    var baseSize := |participants| / numTeams;
    var thrown;
    if UseGenderPath(config) {
      thrown := DistributeWithGenderBalance(order, teams);
    } else {
      thrown := DistributeWithDiversityFocus(order, teams, baseSize);
    }
    if thrown {
      return Threw;
    }
    var diversityScore := CalculateDiversityScore(teams[..]);
    var genderBalanceScore := CalculateGenderBalanceScore(teams[..]);
    r := Assigned(TeamAssignment(teams[..], diversityScore, genderBalanceScore));
  }

  // ------------------------------------------- a team left empty by the deal

  /** Two students from college A and two from college B. */
  const StudentA1 := Participant("a1", "Ann", "A", "female", "s1")
  const StudentA2 := Participant("a2", "Abe", "A", "male", "s2")
  const StudentB1 := Participant("b1", "Bea", "B", "female", "s3")
  const StudentB2 := Participant("b2", "Bob", "B", "male", "s4")

  lemma StrideOfTwo(x: Participant, y: Participant, j: nat)
    ensures Stride([x, y], j, 3) == (if j == 0 then [x] else if j == 1 then [y] else [])
  {
    assert Stride([x], j, 3) == (if j == 0 then [x] else []) by {
      assert [x][..|[x]| - 1] == [];
    }
    assert [x, y][..|[x, y]| - 1] == [x];
  }

  /** The example's college keys and groups. */
  lemma ExampleGroups()
    ensures var ps := [StudentA1, StudentA2, StudentB1, StudentB2];
      && Keys(ps, College) == ["A", "B"]
      && Select(ps, College, "A") == [StudentA1, StudentA2]
      && Select(ps, College, "B") == [StudentB1, StudentB2]
  {
    var ps := [StudentA1, StudentA2, StudentB1, StudentB2];
    assert ps[..3][..2][..1] == [StudentA1];
    assert ps[..3][..2] == [StudentA1, StudentA2];
    assert ps[..3] == [StudentA1, StudentA2, StudentB1];
    assert Keys([StudentA1], College) == ["A"];
    assert Keys([StudentA1, StudentA2], College) == ["A"];
    assert Keys(ps[..3], College) == ["A", "B"];
    assert Select([StudentA1], College, "A") == [StudentA1];
    assert Select([StudentA1, StudentA2], College, "A") == [StudentA1, StudentA2];
    assert Select(ps[..3], College, "A") == [StudentA1, StudentA2];
    assert Select([StudentA1], College, "B") == [];
    assert Select([StudentA1, StudentA2], College, "B") == [];
    assert Select(ps[..3], College, "B") == [StudentB1];
  }

  // Proof steps of the example: the deal of two groups of two, worked out
  // share by share.

  /** Two groups of two dealt to three teams: teams 0 and 1 get one member
      of each group, team 2 nothing. */
  lemma ShareOfTwoPairs(ps: seq<Participant>, a: string, b: string, j: nat,
                        x1: Participant, x2: Participant, y1: Participant, y2: Participant)
    requires j < 3
    requires Select(ps, College, a) == [x1, x2] && Select(ps, College, b) == [y1, y2]
    ensures Share(ps, [a, b], j, 3) == (if j == 0 then [x1, y1] else if j == 1 then [x2, y2] else [])
  {
    ShareOfTwoGroups(ps, a, b, j, 3);
    StrideOfTwo(x1, x2, j);
    StrideOfTwo(y1, y2, j);
  }

  lemma ShareOfTwoGroups(ps: seq<Participant>, a: string, b: string, j: nat, n: nat)
    requires n > 0
    ensures Share(ps, [a, b], j, n) == Stride(Select(ps, College, a), j, n) + Stride(Select(ps, College, b), j, n)
  {
    var one, two := [a], [a, b];
    assert one[..0] == [] && two[..1] == one;
    var sa, sb := Stride(Select(ps, College, a), j, n), Stride(Select(ps, College, b), j, n);
    assert Share(ps, one, j, n) == [] + sa;
    assert Share(ps, two, j, n) == Share(ps, one, j, n) + sb;
  }

  /** Two college groups of two dealt to three empty teams leave the third
      team empty, and with base size 1 no team needs a move. */
  lemma DealTwoPairs(ts: seq<Team>, ps: seq<Participant>, a: string, b: string,
                     x1: Participant, x2: Participant, y1: Participant, y2: Participant)
    requires |ts| == 3 && ts[0].members == [] && ts[1].members == [] && ts[2].members == []
    requires Keys(ps, College) == [a, b]
    requires Select(ps, College, a) == [x1, x2] && Select(ps, College, b) == [y1, y2]
    ensures var d := Dealt(ts, ps);
      |d| == 3 && Size(d[0]) == 2 && Size(d[1]) == 2 && d[2].members == []
      && SortedBySizeDesc(d) && !MoveNeeded(d, 1)
  {
    var d := Dealt(ts, ps);
    assert Size(d[0]) == 2 by {
      DealtMembers(ts, ps, 0);
      ShareOfTwoPairs(ps, a, b, 0, x1, x2, y1, y2);
    }
    assert Size(d[1]) == 2 by {
      DealtMembers(ts, ps, 1);
      ShareOfTwoPairs(ps, a, b, 1, x1, x2, y1, y2);
    }
    assert d[2].members == [] by {
      DealtMembers(ts, ps, 2);
      ShareOfTwoPairs(ps, a, b, 2, x1, x2, y1, y2);
    }
    forall i | 0 <= i < |d| ensures Size(d[i]) <= 2 {
      assert i == 0 || i == 1 || i == 2;
    }
  }

  /** Dealt to three teams, the two college groups both start at team 0,
      so teams 0 and 1 get two members each and team 2 none; the sizes are
      already in order, and with base size 4 / 3 = 1 no team exceeds
      base + 1, so rebalancing moves nobody. */
  lemma DealLeavesTeamEmpty()
    ensures var d := Dealt(NewTeams(3), [StudentA1, StudentA2, StudentB1, StudentB2]);
      |d| == 3 && Size(d[0]) == 2 && Size(d[1]) == 2 && d[2].members == []
      && SortedBySizeDesc(d) && !MoveNeeded(d, 1)
  {
    var ps := [StudentA1, StudentA2, StudentB1, StudentB2];
    var ts := NewTeams(3);
    NewTeamsSpec(3);
    ExampleGroups();
    DealTwoPairs(ts, ps, "A", "B", StudentA1, StudentA2, StudentB1, StudentB2);
  }

  /** Four participants and three teams on the diversity path: the teams
      are exactly the deal, one team stays empty, and the diversity score
      comes out NaN. */
  method EmptyTeamScenario() returns (r: Outcome)
    ensures r.Assigned? && r.assignment.teams == Dealt(NewTeams(3), [StudentA1, StudentA2, StudentB1, StudentB2])
    ensures r.assignment.teams[2].members == [] && r.assignment.diversityScore == NaN
  {
    var ps := [StudentA1, StudentA2, StudentB1, StudentB2];
    var config := ShuffleConfig(3, false, 0.7, 0.3);
    r := Shuffle(ps, ps, config);
    EmptyTeamOutcome(ps, config);
  }

  /** Proof step of the example: the engine returns the deal itself, scored. */
  lemma EmptyTeamOutcome(ps: seq<Participant>, config: ShuffleConfig)
    requires ps == [StudentA1, StudentA2, StudentB1, StudentB2]
    requires config == ShuffleConfig(3, false, 0.7, 0.3)
    ensures var d := Dealt(NewTeams(3), ps);
      && Shuffled(ps, config) == Scored(d)
      && d[2].members == [] && DiversityScore(d) == NaN
  {
    var d := Dealt(NewTeams(3), ps);
    assert Groupable(ps, College);
    DealLeavesTeamEmpty();
    UnmovedDeal(d, 1);
    assert |ps| / config.numTeams == 1;
    assert HasEmptyTeam(d) by {
      assert d[2].members == [];
    }
  }

  /** Teams already sorted with no move needed come out of sort and
      rebalance unchanged. */
  lemma UnmovedDeal(d: seq<Team>, base: int)
    requires |d| >= 1 && SortedBySizeDesc(d) && !MoveNeeded(d, base)
    ensures Rebalanced(InsertionSorted(d), base) == d
  {
    SortedUnchanged(d);
    RebalancedSpec(d, base);
  }

  /** A participant from a college named `constructor` makes the diversity
      path throw, whatever else the input holds. */
  lemma InheritedCollegeThrows(ps: seq<Participant>, p: Participant, config: ShuffleConfig)
    requires p in ps && p.college == "constructor" && !UseGenderPath(config)
    ensures Shuffled(ps, config) == Threw
  {
    assert Inherited(p.college);
  }
}
