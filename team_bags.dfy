/** Quantities of a sequence of teams that moving members or reordering
    teams must preserve: the bag of members, the bag of ids, and the
    distance of the team sizes from a target size. */
module TeamBags {
  import opened Types

  /** Every member of every team, as a bag. */
  function Members(ts: seq<Team>): multiset<Participant>
  {
    if ts == [] then multiset{} else multiset(ts[0].members) + Members(ts[1..])
  }

  /** The ids of the teams, as a bag. */
  function Ids(ts: seq<Team>): multiset<int>
  {
    if ts == [] then multiset{} else multiset{ts[0].id} + Ids(ts[1..])
  }

  function Abs(x: int): nat { if x < 0 then -x else x }

  /** The sum of |size - base| over the teams: the rebalancing variant. */
  function Deviation(ts: seq<Team>, base: int): nat
  {
    if ts == [] then 0 else Abs(Size(ts[0]) - base) + Deviation(ts[1..], base)
  }

  /** The ids 0 .. n-1, each once. */
  function IdRange(n: nat): multiset<int>
  {
    if n == 0 then multiset{} else IdRange(n - 1) + multiset{n - 1}
  }

  predicate AllPainted(ts: seq<Team>) {
    forall t :: t in ts ==> Painted(t)
  }

  predicate SortedBySizeDesc(ts: seq<Team>) {
    forall p, q :: 0 <= p < q < |ts| ==> Size(ts[p]) >= Size(ts[q])
  }

  /** No two team sizes differ by more than one. */
  predicate Balanced(ts: seq<Team>) {
    forall i, j :: 0 <= i < |ts| && 0 <= j < |ts| ==> Size(ts[i]) <= Size(ts[j]) + 1
  }

  // Proof steps: how the member, id and deviation bags behave under
  // concatenation, splitting at an index, updating one team and moving a
  // team to the front. The rebalancing and distribution proofs rest on them.

  lemma {:induction false} MembersConcat(a: seq<Team>, b: seq<Team>)
    ensures Members(a + b) == Members(a) + Members(b)
  {
    if a == [] {
      assert a + b == b;
    } else {
      assert (a + b)[1..] == a[1..] + b;
      MembersConcat(a[1..], b);
    }
  }

  lemma {:induction false} IdsConcat(a: seq<Team>, b: seq<Team>)
    ensures Ids(a + b) == Ids(a) + Ids(b)
  {
    if a == [] {
      assert a + b == b;
    } else {
      assert (a + b)[1..] == a[1..] + b;
      IdsConcat(a[1..], b);
    }
  }

  lemma {:induction false} DeviationConcat(a: seq<Team>, b: seq<Team>, base: int)
    ensures Deviation(a + b, base) == Deviation(a, base) + Deviation(b, base)
  {
    if a == [] {
      assert a + b == b;
    } else {
      assert (a + b)[1..] == a[1..] + b;
      DeviationConcat(a[1..], b, base);
    }
  }

  lemma MembersSplit(s: seq<Team>, i: nat)
    requires i < |s|
    ensures Members(s) == Members(s[..i]) + multiset(s[i].members) + Members(s[i + 1..])
  {
    var pre, post := s[..i], s[i..];
    assert s == pre + post;
    MembersConcat(pre, post);
    assert post[0] == s[i] && post[1..] == s[i + 1..];
  }

  lemma IdsSplit(s: seq<Team>, i: nat)
    requires i < |s|
    ensures Ids(s) == Ids(s[..i]) + multiset{s[i].id} + Ids(s[i + 1..])
  {
    var pre, post := s[..i], s[i..];
    assert s == pre + post;
    IdsConcat(pre, post);
    assert post[0] == s[i] && post[1..] == s[i + 1..];
  }

  lemma DeviationSplit(s: seq<Team>, i: nat, base: int)
    requires i < |s|
    ensures Deviation(s, base) == Deviation(s[..i], base) + Abs(Size(s[i]) - base) + Deviation(s[i + 1..], base)
  {
    var pre, post := s[..i], s[i..];
    assert s == pre + post;
    DeviationConcat(pre, post, base);
    assert post[0] == s[i] && post[1..] == s[i + 1..];
  }

  /** Replacing one team changes each quantity by that team's share only. */
  lemma MembersUpdate(s: seq<Team>, i: nat, t: Team)
    requires i < |s|
    ensures Members(s[i := t]) + multiset(s[i].members) == Members(s) + multiset(t.members)
  {
    var u := s[i := t];
    assert u[..i] == s[..i] && u[i + 1..] == s[i + 1..];
    MembersSplit(s, i);
    MembersSplit(u, i);
  }

  lemma IdsUpdate(s: seq<Team>, i: nat, t: Team)
    requires i < |s|
    ensures Ids(s[i := t]) + multiset{s[i].id} == Ids(s) + multiset{t.id}
  {
    var u := s[i := t];
    assert u[..i] == s[..i] && u[i + 1..] == s[i + 1..];
    IdsSplit(s, i);
    IdsSplit(u, i);
  }

  lemma DeviationUpdate(s: seq<Team>, i: nat, t: Team, base: int)
    requires i < |s|
    ensures Deviation(s[i := t], base) + Abs(Size(s[i]) - base) == Deviation(s, base) + Abs(Size(t) - base)
  {
    var u := s[i := t];
    assert u[..i] == s[..i] && u[i + 1..] == s[i + 1..];
    DeviationSplit(s, i, base);
    DeviationSplit(u, i, base);
  }

  /** Appending one team adds exactly its share. */
  lemma BagsOfSnoc(s: seq<Team>, t: Team)
    ensures Members(s + [t]) == Members(s) + multiset(t.members)
    ensures Ids(s + [t]) == Ids(s) + multiset{t.id}
  {
    MembersConcat(s, [t]);
    IdsConcat(s, [t]);
    assert [t][1..] == [];
  }

  lemma MultisetRemove(t: seq<Team>, j: nat)
    requires j < |t|
    ensures multiset(t[..j] + t[j + 1..]) == multiset(t) - multiset{t[j]}
  {
    assert t == t[..j] + [t[j]] + t[j + 1..];
  }

  lemma FindFirst(s: seq<Team>, t: seq<Team>) returns (j: nat)
    requires multiset(s) == multiset(t) && s != []
    ensures j < |t| && t[j] == s[0]
    ensures multiset(s[1..]) == multiset(t[..j] + t[j + 1..])
  {
    var x := s[0];
    assert x in multiset(s);
    assert x in t;
    j :| 0 <= j < |t| && t[j] == x;
    MultisetRemove(t, j);
    assert s == [x] + s[1..];
    assert multiset(s[1..]) == multiset(s) - multiset{x};
  }

  /** A member of one of the teams is in the members' bag. */
  lemma InTeamIsMember(ts: seq<Team>, t: Team, p: Participant)
    requires t in ts && p in t.members
    ensures p in Members(ts)
  {
    var i :| 0 <= i < |ts| && ts[i] == t;
    MembersSplit(ts, i);
  }

  /** Reordering teams preserves every quantity. */
  lemma {:induction false} BagsOfPermutation(s: seq<Team>, t: seq<Team>, base: int)
    requires multiset(s) == multiset(t)
    ensures Members(s) == Members(t)
    ensures Ids(s) == Ids(t)
    ensures Deviation(s, base) == Deviation(t, base)
    decreases |s|
  {
    if s == [] {
      assert |t| == |multiset(t)| == 0;
    } else {
      var j := FindFirst(s, t);
      BagsOfPermutation(s[1..], t[..j] + t[j + 1..], base);
      MembersMovedToFront(s, t, j);
      IdsMovedToFront(s, t, j);
      DeviationMovedToFront(s, t, j, base);
    }
  }

  lemma MembersMovedToFront(s: seq<Team>, t: seq<Team>, j: nat)
    requires s != [] && j < |t| && t[j] == s[0]
    requires Members(s[1..]) == Members(t[..j] + t[j + 1..])
    ensures Members(s) == Members(t)
  {
    MembersSplit(t, j);
    MembersConcat(t[..j], t[j + 1..]);
    assert Members(s) == multiset(s[0].members) + Members(s[1..]);
  }

  lemma IdsMovedToFront(s: seq<Team>, t: seq<Team>, j: nat)
    requires s != [] && j < |t| && t[j] == s[0]
    requires Ids(s[1..]) == Ids(t[..j] + t[j + 1..])
    ensures Ids(s) == Ids(t)
  {
    IdsSplit(t, j);
    IdsConcat(t[..j], t[j + 1..]);
    assert Ids(s) == multiset{s[0].id} + Ids(s[1..]);
  }

  lemma DeviationMovedToFront(s: seq<Team>, t: seq<Team>, j: nat, base: int)
    requires s != [] && j < |t| && t[j] == s[0]
    requires Deviation(s[1..], base) == Deviation(t[..j] + t[j + 1..], base)
    ensures Deviation(s, base) == Deviation(t, base)
  {
    DeviationSplit(t, j, base);
    DeviationConcat(t[..j], t[j + 1..], base);
    assert Deviation(s, base) == Abs(Size(s[0]) - base) + Deviation(s[1..], base);
  }

  // ------------------------------------------------------------ fresh teams

  /** `n` fresh teams: team i is painted from palette entry i mod 10 and empty. */
  function NewTeam(i: nat): Team {
    Team(i, TEAM_NAMES[i % 10], TEAM_COLORS[i % 10], [])
  }

  function NewTeams(n: nat): (r: seq<Team>)
    ensures |r| == n
  {
    if n == 0 then [] else NewTeams(n - 1) + [NewTeam(n - 1)]
  }

  lemma {:induction false} NewTeamsIndex(n: nat)
    ensures |NewTeams(n)| == n && forall i :: 0 <= i < n ==> NewTeams(n)[i] == NewTeam(i)
  {
    if n > 0 {
      NewTeamsIndex(n - 1);
      var prev := NewTeams(n - 1);
      forall i | 0 <= i < n ensures NewTeams(n)[i] == NewTeam(i) {
        if i < n - 1 {
          assert NewTeams(n)[i] == prev[i];
        }
      }
    }
  }

  /** Teams numbered by position and all empty carry no members and the
      ids 0 .. |ts|-1. */
  lemma {:induction false} NumberedEmptyBags(ts: seq<Team>)
    requires forall i :: 0 <= i < |ts| ==> ts[i].id == i && ts[i].members == []
    ensures Members(ts) == multiset{}
    ensures Ids(ts) == IdRange(|ts|)
  {
    if ts != [] {
      var init, last := ts[..|ts| - 1], ts[|ts| - 1];
      assert ts == init + [last];
      NumberedEmptyBags(init);
      BagsOfSnoc(init, last);
    }
  }

  /** The creation loop's teams: team i has id i, its palette entry and no
      members; together they carry the ids 0 .. n-1 once each. */
  lemma NewTeamsSpec(n: nat)
    ensures |NewTeams(n)| == n && forall i :: 0 <= i < n ==> NewTeams(n)[i] == NewTeam(i)
    ensures Members(NewTeams(n)) == multiset{}
    ensures Ids(NewTeams(n)) == IdRange(n)
    ensures AllPainted(NewTeams(n)) && Balanced(NewTeams(n))
  {
    NewTeamsIndex(n);
    NumberedEmptyBags(NewTeams(n));
    forall t | t in NewTeams(n) ensures Painted(t) {
      var i :| 0 <= i < n && NewTeams(n)[i] == t;
    }
  }

  // ------------------------------------------------------------ size bounds

  /** The total number of members is the sum of the team sizes, so bounds
      on every size bound the total. */
  lemma {:induction false} TotalBounds(ts: seq<Team>, lo: nat, hi: nat)
    requires forall i :: 0 <= i < |ts| ==> lo <= Size(ts[i]) <= hi
    ensures |ts| * lo <= |Members(ts)| <= |ts| * hi
  {
    if ts != [] {
      var rest := ts[1..];
      TotalBounds(rest, lo, hi);
      assert |Members(ts)| == Size(ts[0]) + |Members(rest)|;
      MulSucc(|rest|, lo);
      MulSucc(|rest|, hi);
    }
  }

  /** As TotalBounds, strictly below the upper bound when one team is. */
  lemma {:induction false} TotalBelow(ts: seq<Team>, hi: nat, i: nat)
    requires forall j :: 0 <= j < |ts| ==> Size(ts[j]) <= hi
    requires i < |ts| && Size(ts[i]) < hi
    ensures |Members(ts)| < |ts| * hi
  {
    var rest := ts[1..];
    assert |Members(ts)| == Size(ts[0]) + |Members(rest)|;
    MulSucc(|rest|, hi);
    if i == 0 {
      TotalBounds(rest, 0, hi);
    } else {
      TotalBelow(rest, hi, i - 1);
    }
  }

  /** As TotalBounds, strictly above the lower bound when one team is. */
  lemma {:induction false} TotalAbove(ts: seq<Team>, lo: nat, i: nat)
    requires forall j :: 0 <= j < |ts| ==> lo <= Size(ts[j])
    requires i < |ts| && Size(ts[i]) > lo
    ensures |Members(ts)| > |ts| * lo
  {
    var rest := ts[1..];
    assert |Members(ts)| == Size(ts[0]) + |Members(rest)|;
    MulSucc(|rest|, lo);
    if i == 0 {
      TotalAtLeast(rest, lo);
    } else {
      TotalAbove(rest, lo, i - 1);
    }
  }

  lemma {:induction false} TotalAtLeast(ts: seq<Team>, lo: nat)
    requires forall j :: 0 <= j < |ts| ==> lo <= Size(ts[j])
    ensures |Members(ts)| >= |ts| * lo
  {
    if ts != [] {
      var rest := ts[1..];
      TotalAtLeast(rest, lo);
      assert |Members(ts)| == Size(ts[0]) + |Members(rest)|;
      MulSucc(|rest|, lo);
    }
  }

  lemma DivBounds(n: nat, k: nat)
    requires k > 0
    ensures k * (n / k) <= n < k * (n / k) + k
  {
    assert n == (n / k) * k + n % k;
  }

  lemma MulAddOne(k: nat, b: nat)
    ensures k * (b + 1) == k * b + k
  {
  }

  lemma MulSucc(a: nat, b: nat)
    ensures (a + 1) * b == a * b + b
  {
  }

  lemma NoTeamBelow(ts: seq<Team>, i: nat, base: nat)
    requires Balanced(ts) && i < |ts| && |ts| * base <= |Members(ts)|
    ensures base <= Size(ts[i])
  {
    if Size(ts[i]) < base {
      assert forall j :: 0 <= j < |ts| ==> Size(ts[j]) <= base;
      TotalBelow(ts, base, i);
    }
  }

  lemma NoTeamAbove(ts: seq<Team>, i: nat, hi: nat)
    requires Balanced(ts) && i < |ts| && |Members(ts)| < |ts| * hi
    ensures Size(ts[i]) <= hi
  {
    if Size(ts[i]) > hi {
      forall j | 0 <= j < |ts| ensures hi <= Size(ts[j]) {
        assert Size(ts[i]) <= Size(ts[j]) + 1;
      }
      TotalAbove(ts, hi, i);
    }
  }

  /** Sizes that differ pairwise by at most one, summing to n over k teams,
      are all floor(n / k) or floor(n / k) + 1. */
  lemma BalancedSizesNearBase(ts: seq<Team>)
    requires |ts| >= 1 && Balanced(ts)
    ensures forall i :: 0 <= i < |ts| ==>
      |Members(ts)| / |ts| <= Size(ts[i]) <= |Members(ts)| / |ts| + 1
  {
    var base := |Members(ts)| / |ts|;
    DivBounds(|Members(ts)|, |ts|);
    MulAddOne(|ts|, base);
    forall i | 0 <= i < |ts| ensures base <= Size(ts[i]) <= base + 1 {
      NoTeamBelow(ts, i, base);
      NoTeamAbove(ts, i, base + 1);
    }
  }

  /** Every team's members are among all the members. */
  lemma TeamWithin(ts: seq<Team>, i: nat)
    requires i < |ts|
    ensures multiset(ts[i].members) <= Members(ts)
  {
    MembersSplit(ts, i);
  }

  /** A participant counted once overall sits in exactly one team. */
  /** A participant in the bag of members is in some team. */
  lemma {:induction false} InSomeTeam(ts: seq<Team>, p: Participant)
    requires p in Members(ts)
    ensures exists t :: t in ts && p in t.members
  {
    if p in ts[0].members {
      assert ts[0] in ts;
    } else {
      assert p in multiset(ts[0].members) <==> p in ts[0].members;
      InSomeTeam(ts[1..], p);
      var t :| t in ts[1..] && p in t.members;
      assert t in ts;
    }
  }

  lemma {:induction false} InExactlyOneTeam(ts: seq<Team>, p: Participant)
    requires Members(ts)[p] == 1
    ensures exists i :: 0 <= i < |ts| && p in ts[i].members
    ensures forall i, j :: 0 <= i < |ts| && 0 <= j < |ts| && p in ts[i].members && p in ts[j].members ==> i == j
  {
    assert ts != [];
    var rest := ts[1..];
    assert Members(ts) == multiset(ts[0].members) + Members(rest);
    if p in ts[0].members {
      assert Members(rest)[p] == 0;
      forall j | 1 <= j < |ts| ensures p !in ts[j].members {
        TeamWithin(rest, j - 1);
        assert rest[j - 1] == ts[j];
      }
    } else {
      InExactlyOneTeam(rest, p);
      var i :| 0 <= i < |rest| && p in rest[i].members;
      assert p in ts[i + 1].members;
      forall i, j | 0 <= i < |ts| && 0 <= j < |ts| && p in ts[i].members && p in ts[j].members ensures i == j {
        assert i > 0 && j > 0;
        assert p in rest[i - 1].members && p in rest[j - 1].members;
      }
    }
  }
}
