/** The two fairness scores of a partitioning run, over real numbers
    (IEEE rounding is not modelled). A JavaScript NaN is the `NaN` score. */
module Scores {
  import opened Types

  /** `Math.round`: the nearest integer, halves rounded up. */
  function Round(x: real): int { (x + 0.5).Floor }

  lemma RoundRange(x: real)
    requires 0.0 <= x <= 100.0
    ensures 0 <= Round(x) <= 100
  {
  }

  // ---------------------------------------------------------------- diversity

  /** The distinct colleges among `s` (the size of `new Set(...)`). */
  function Colleges(s: seq<Participant>): set<string>
  {
    if s == [] then {} else {s[0].college} + Colleges(s[1..])
  }

  lemma {:induction false} CollegesSpec(s: seq<Participant>)
    ensures forall c :: c in Colleges(s) <==> exists p :: p in s && p.college == c
    ensures |Colleges(s)| <= |s|
    ensures s != [] ==> |Colleges(s)| >= 1
  {
    if s != [] {
      CollegesSpec(s[1..]);
      assert s == [s[0]] + s[1..];
    }
  }

  /** No two members of `s` share a college. */
  predicate AllCollegesDistinct(s: seq<Participant>) {
    forall i, j :: 0 <= i < j < |s| ==> s[i].college != s[j].college
  }

  lemma {:induction false} CollegeAbsent(s: seq<Participant>, c: string)
    requires forall i :: 0 <= i < |s| ==> s[i].college != c
    ensures c !in Colleges(s)
  {
    if s != [] {
      CollegeAbsent(s[1..], c);
      assert s[0].college != c;
    }
  }

  lemma {:induction false} SingleCollege(s: seq<Participant>, c: string)
    requires s != [] && forall p :: p in s ==> p.college == c
    ensures Colleges(s) == {c}
  {
    if |s| > 1 {
      SingleCollege(s[1..], c);
    }
    assert s[0] in s;
  }

  lemma {:induction false} DistinctCollegesCount(s: seq<Participant>)
    requires AllCollegesDistinct(s)
    ensures |Colleges(s)| == |s|
  {
    if s != [] {
      var rest := s[1..];
      assert AllCollegesDistinct(rest) by {
        forall i, j | 0 <= i < j < |rest| ensures rest[i].college != rest[j].college {
          assert rest[i] == s[i + 1] && rest[j] == s[j + 1];
        }
      }
      DistinctCollegesCount(rest);
      forall i | 0 <= i < |rest| ensures rest[i].college != s[0].college {
        assert rest[i] == s[i + 1];
      }
      CollegeAbsent(rest, s[0].college);
    }
  }

  predicate HasEmptyTeam(ts: seq<Team>) {
    exists i :: 0 <= i < |ts| && ts[i].members == []
  }

  lemma NoEmptyTeamInPrefix(ts: seq<Team>, k: nat)
    requires !HasEmptyTeam(ts) && k <= |ts|
    ensures !HasEmptyTeam(ts[..k])
  {
    forall i | 0 <= i < k ensures ts[..k][i].members != [] {
      assert ts[..k][i] == ts[i];
    }
  }

  /** Distinct colleges over size: the share of a team's members that bring
      a college of their own. */
  function DiversityRatio(t: Team): real
    requires t.members != []
  {
    |Colleges(t.members)| as real / |t.members| as real
  }

  function RatioSum(ts: seq<Team>): real
    requires !HasEmptyTeam(ts)
  {
    if ts == [] then 0.0
    else
      NoEmptyTeamInPrefix(ts, |ts| - 1);
      RatioSum(ts[..|ts| - 1]) + DiversityRatio(ts[|ts| - 1])
  }

  /** The diversity score as the code computes it: an empty team divides
      zero by zero and so does an empty team list; NaN then propagates
      through the sum and `Math.round`. */
  function DiversityScore(ts: seq<Team>): Score
  {
    if |ts| == 0 || HasEmptyTeam(ts) then NaN
    else Num(Round(RatioSum(ts) / |ts| as real * 100.0))
  }

  lemma UnitFraction(a: real, b: real)
    requires 0.0 < a <= b
    ensures 0.0 < a / b <= 1.0
  {
    var q := a / b;
    assert q * b == a;
    assert (q - 1.0) * b == a - b;
  }

  lemma SelfDivision(a: real)
    requires a > 0.0
    ensures a / a == 1.0
  {
  }

  lemma RatioRange(t: Team)
    requires t.members != []
    ensures 0.0 < DiversityRatio(t) <= 1.0
  {
    CollegesSpec(t.members);
    UnitFraction(|Colleges(t.members)| as real, |t.members| as real);
  }

  lemma {:induction false} RatioSumRange(ts: seq<Team>)
    requires !HasEmptyTeam(ts)
    ensures 0.0 <= RatioSum(ts) <= |ts| as real
  {
    if ts != [] {
      var init := ts[..|ts| - 1];
      NoEmptyTeamInPrefix(ts, |ts| - 1);
      RatioSumRange(init);
      RatioRange(ts[|ts| - 1]);
    }
  }

  lemma MeanRange(sum: real, n: nat)
    requires n > 0 && 0.0 <= sum <= n as real
    ensures 0.0 <= sum / n as real * 100.0 <= 100.0
  {
    assert sum / n as real <= 1.0;
  }

  /** With no empty team the diversity score is a number in [0, 100]. */
  lemma DiversityScoreRange(ts: seq<Team>)
    requires |ts| > 0 && !HasEmptyTeam(ts)
    ensures DiversityScore(ts).Num?
    ensures 0 <= DiversityScore(ts).value <= 100
  {
    RatioSumRange(ts);
    MeanRange(RatioSum(ts), |ts|);
    RoundRange(RatioSum(ts) / |ts| as real * 100.0);
  }

  /** A team whose members all come from different colleges contributes 1. */
  lemma DistinctCollegesRatio(t: Team)
    requires t.members != [] && AllCollegesDistinct(t.members)
    ensures DiversityRatio(t) == 1.0
  {
    DistinctCollegesCount(t.members);
    SelfDivision(|t.members| as real);
  }

  /** A team drawn from a single college contributes 1 / size. */
  lemma SingleCollegeRatio(t: Team, c: string)
    requires t.members != [] && forall p :: p in t.members ==> p.college == c
    ensures DiversityRatio(t) == 1.0 / |t.members| as real
  {
    SingleCollege(t.members, c);
  }

  /** Non-empty teams that each draw every member from a different college
      score 100. */
  lemma {:induction false} AllDistinctScoresHundred(ts: seq<Team>)
    requires |ts| > 0 && !HasEmptyTeam(ts)
    requires forall i :: 0 <= i < |ts| ==> AllCollegesDistinct(ts[i].members)
    ensures DiversityScore(ts) == Num(100)
  {
    AllDistinctRatioSum(ts);
    assert RatioSum(ts) / |ts| as real == 1.0;
  }

  lemma {:induction false} AllDistinctRatioSum(ts: seq<Team>)
    requires !HasEmptyTeam(ts)
    requires forall i :: 0 <= i < |ts| ==> AllCollegesDistinct(ts[i].members)
    ensures RatioSum(ts) == |ts| as real
  {
    if ts != [] {
      var init := ts[..|ts| - 1];
      NoEmptyTeamInPrefix(ts, |ts| - 1);
      assert forall i :: 0 <= i < |init| ==> init[i] == ts[i];
      AllDistinctRatioSum(init);
      DistinctCollegesRatio(ts[|ts| - 1]);
    }
  }

  /** The accumulation loop of the diversity score. */
  method CalculateDiversityScore(teams: seq<Team>) returns (score: Score)
    ensures score == DiversityScore(teams)
  {
    var totalScore: real := 0.0;
    var nan := false;
    for i := 0 to |teams|
      invariant nan == HasEmptyTeam(teams[..i])
      invariant !nan ==> totalScore == RatioSum(teams[..i])
    {
      assert teams[..i + 1][..i] == teams[..i];
      assert teams[..i + 1][i] == teams[i];
      if teams[i].members == [] {
        nan := true;
      } else if !nan {
        totalScore := totalScore + DiversityRatio(teams[i]);
      }
      assert HasEmptyTeam(teams[..i + 1]) <==> HasEmptyTeam(teams[..i]) || teams[i].members == [] by {
        if HasEmptyTeam(teams[..i]) {
          var j :| 0 <= j < i && teams[..i][j].members == [];
          assert teams[..i + 1][j] == teams[..i][j];
        }
        if HasEmptyTeam(teams[..i + 1]) {
          var j :| 0 <= j < i + 1 && teams[..i + 1][j].members == [];
          if j < i { assert teams[..i][j] == teams[..i + 1][j]; }
        }
      }
    }
    assert teams[..|teams|] == teams;
    if nan || |teams| == 0 {
      score := NaN;
    } else {
      score := Num(Round(totalScore / |teams| as real * 100.0));
    }
  }

  // ----------------------------------------------------------- gender balance

  /** A JavaScript number that is a real or NaN: a team's balance and the
      running total of the balances. */
  datatype RealOrNaN = Real(value: real) | RealNaN

  /** JavaScript addition: NaN absorbs. */
  function Plus(a: RealOrNaN, b: RealOrNaN): RealOrNaN {
    if a.Real? && b.Real? then Real(a.value + b.value) else RealNaN
  }

  /** How many members of `s` have gender `g`. */
  function CountOf(s: seq<Participant>, g: string): nat
  {
    if s == [] then 0
    else CountOf(s[..|s| - 1], g) + (if s[|s| - 1].gender == g then 1 else 0)
  }

  /** A gender whose slot in the count object ends up holding a string:
      `(genderCounts[g] || 0) + 1` finds the inherited function, turns it
      into text by `+ 1`, and stores that text as an own property.
      `__proto__` is inherited too, but its setter ignores a string, so
      that gender leaves no slot at all. */
  predicate Garbling(g: string) {
    Inherited(g) && g != PROTO
  }

  /** Some member of `s` has a garbling gender. */
  predicate Garbled(s: seq<Participant>) {
    exists p :: p in s && Garbling(p.gender)
  }

  /** The members of `s` whose gender gets a numeric count: those whose
      gender is not an inherited name. */
  function Tallied(s: seq<Participant>): seq<Participant>
  {
    if s == [] then []
    else Tallied(s[..|s| - 1]) + (if Inherited(s[|s| - 1].gender) then [] else [s[|s| - 1]])
  }

  /** Members whose genders are all inherited keys leave nothing to tally. */
  lemma {:induction false} NoneTallied(s: seq<Participant>)
    requires forall p :: p in s ==> Inherited(p.gender)
    ensures Tallied(s) == []
  {
    if s != [] {
      NoneTallied(s[..|s| - 1]);
      assert s[|s| - 1] in s;
    }
  }

  lemma {:induction false} TalliedSpec(s: seq<Participant>)
    ensures forall p :: p in Tallied(s) <==> p in s && !Inherited(p.gender)
  {
    if s != [] {
      var init := s[..|s| - 1];
      TalliedSpec(init);
      assert s == init + [s[|s| - 1]];
    }
  }

  /** The largest count among the genders of the members of `over`, i.e.
      among the numeric values of the gender-count object of `s` when
      `over` is `Tallied(s)`. */
  function MaxCount(s: seq<Participant>, over: seq<Participant>): nat
  {
    if over == [] then 0
    else
      var c := CountOf(s, over[0].gender);
      var rest := MaxCount(s, over[1..]);
      if c >= rest then c else rest
  }

  function MinCount(s: seq<Participant>, over: seq<Participant>): nat
    requires over != []
  {
    var c := CountOf(s, over[0].gender);
    if |over| == 1 then c
    else
      var rest := MinCount(s, over[1..]);
      if c <= rest then c else rest
  }

  lemma {:induction false} CountedMember(s: seq<Participant>, p: Participant)
    requires p in s
    ensures CountOf(s, p.gender) >= 1
  {
    var init := s[..|s| - 1];
    assert s == init + [s[|s| - 1]];
    if s[|s| - 1] != p {
      assert p in init;
      CountedMember(init, p);
    }
  }

  lemma {:induction false} CountsBounds(s: seq<Participant>, over: seq<Participant>)
    requires over != [] && forall p :: p in over ==> p in s
    ensures 1 <= MinCount(s, over) <= MaxCount(s, over)
  {
    CountedMember(s, over[0]);
    if |over| > 1 {
      CountsBounds(s, over[1..]);
    }
  }

  /** One team's contribution: NaN when a count slot holds text
      (`Math.max` of a non-numeric string), 0 when no slot is left, and
      otherwise min / max of the counts. A single-gender team therefore
      contributes 1, and an empty team 0. */
  function GenderBalance(s: seq<Participant>): RealOrNaN
  {
    if Garbled(s) then RealNaN
    else if Tallied(s) == [] then Real(0.0)
    else
      TalliedSpec(s);
      CountsBounds(s, Tallied(s));
      Real(MinCount(s, Tallied(s)) as real / MaxCount(s, Tallied(s)) as real)
  }

  function BalanceSum(ts: seq<Team>): RealOrNaN
  {
    if ts == [] then Real(0.0)
    else Plus(BalanceSum(ts[..|ts| - 1]), GenderBalance(ts[|ts| - 1].members))
  }

  /** The gender-balance score: 0 with no teams, otherwise the rounded mean
      balance times 100, NaN as soon as one team's balance is NaN. */
  function GenderBalanceScore(ts: seq<Team>): Score
  {
    if |ts| == 0 then Num(0)
    else if BalanceSum(ts).RealNaN? then NaN
    else Num(Round(BalanceSum(ts).value / |ts| as real * 100.0))
  }

  /** Some team has a member whose gender garbles its count slot. */
  predicate AnyGarbled(ts: seq<Team>) {
    exists t :: t in ts && Garbled(t.members)
  }

  /** A team's balance is NaN exactly when a gender garbles its slot;
      otherwise it lies in [0, 1] and is positive exactly when some member
      has a gender that is not inherited. */
  lemma BalanceRange(s: seq<Participant>)
    ensures GenderBalance(s).RealNaN? <==> Garbled(s)
    ensures GenderBalance(s).Real? ==> 0.0 <= GenderBalance(s).value <= 1.0
    ensures GenderBalance(s).Real? ==>
      (GenderBalance(s).value > 0.0 <==> exists p :: p in s && !Inherited(p.gender))
  {
    TalliedSpec(s);
    if !Garbled(s) && Tallied(s) != [] {
      CountsBounds(s, Tallied(s));
      UnitFraction(MinCount(s, Tallied(s)) as real, MaxCount(s, Tallied(s)) as real);
      assert Tallied(s)[0] in Tallied(s);
    }
  }

  lemma {:induction false} BalanceSumRange(ts: seq<Team>)
    ensures BalanceSum(ts).RealNaN? <==> AnyGarbled(ts)
    ensures BalanceSum(ts).Real? ==> 0.0 <= BalanceSum(ts).value <= |ts| as real
  {
    if ts != [] {
      var init, last := ts[..|ts| - 1], ts[|ts| - 1];
      assert ts == init + [last];
      BalanceSumRange(init);
      BalanceRange(last.members);
      assert AnyGarbled(ts) <==> AnyGarbled(init) || Garbled(last.members) by {
        if AnyGarbled(ts) {
          var t :| t in ts && Garbled(t.members);
          assert t in init || t == last;
        }
      }
    }
  }

  /** The gender-balance score is NaN exactly when some team has a member
      whose gender garbles its count slot, and otherwise a number in
      [0, 100]. */
  lemma GenderBalanceScoreRange(ts: seq<Team>)
    ensures GenderBalanceScore(ts) == NaN <==> AnyGarbled(ts)
    ensures GenderBalanceScore(ts).Num? ==> 0 <= GenderBalanceScore(ts).value <= 100
  {
    BalanceSumRange(ts);
    if |ts| > 0 && BalanceSum(ts).Real? {
      MeanRange(BalanceSum(ts).value, |ts|);
      RoundRange(BalanceSum(ts).value / |ts| as real * 100.0);
    }
  }

  lemma {:induction false} SingleGenderCounts(s: seq<Participant>, over: seq<Participant>, g: string)
    requires over != [] && forall p :: p in over ==> p.gender == g
    ensures MinCount(s, over) == MaxCount(s, over) == CountOf(s, g)
  {
    if |over| > 1 {
      SingleGenderCounts(s, over[1..], g);
    }
  }

  /** A non-empty team of a single gender contributes 1, not 0, unless the
      gender is an inherited name: `__proto__` leaves no count (0) and any
      other inherited name a text count (NaN). */
  lemma SingleGenderBalance(s: seq<Participant>, g: string)
    requires s != [] && forall p :: p in s ==> p.gender == g
    ensures GenderBalance(s) == (if g == PROTO then Real(0.0) else if Inherited(g) then RealNaN else Real(1.0))
  {
    assert s[0] in s && s[0].gender == g;
    TalliedSpec(s);
    if !Inherited(g) {
      var over := Tallied(s);
      assert s[0] in over;
      SingleGenderCounts(s, over, g);
      CountedMember(s, s[0]);
      SelfDivision(CountOf(s, g) as real);
    }
  }

  /** What a slot of the count object holds: a count, or text. */
  datatype Slot = Count(n: nat) | Text

  /** The gender-count object of a team, built member by member:
      `genderCounts[g] = (genderCounts[g] || 0) + 1`. */
  method GenderCounts(members: seq<Participant>) returns (genderCounts: map<string, Slot>)
    ensures forall g :: g in genderCounts <==> g != PROTO && exists p :: p in members && p.gender == g
    ensures forall g :: g in genderCounts && !Inherited(g) ==> genderCounts[g] == Count(CountOf(members, g))
    ensures forall g :: g in genderCounts && Inherited(g) ==> genderCounts[g] == Text
  {
    genderCounts := map[];
    for i := 0 to |members|
      invariant Counts(members[..i], genderCounts)
    {
      var m := members[i];
      ghost var before := genderCounts;
      if m.gender == PROTO {
        // the `__proto__` setter ignores the text: nothing is stored
      } else if Inherited(m.gender) {
        genderCounts := genderCounts[m.gender := Text];
      } else if m.gender in genderCounts {
        genderCounts := genderCounts[m.gender := Count(genderCounts[m.gender].n + 1)];
      } else {
        ZeroCount(members[..i], m.gender);
        genderCounts := genderCounts[m.gender := Count(1)];
      }
      CountStep(members[..i], m, before, genderCounts);
      assert members[..i + 1] == members[..i] + [m];
    }
    assert members[..|members|] == members;
  }

  /** Some member of `s` has gender `g`. */
  predicate HasGender(s: seq<Participant>, g: string) {
    exists p :: p in s && p.gender == g
  }

  /** `counts` is the count object of the members `s`. */
  ghost predicate Counts(s: seq<Participant>, counts: map<string, Slot>) {
    && (forall g :: g in counts <==> g != PROTO && HasGender(s, g))
    && (forall g :: g in counts && !Inherited(g) ==> counts[g] == Count(CountOf(s, g)))
    && (forall g :: g in counts && Inherited(g) ==> counts[g] == Text)
  }

  lemma HasGenderSnoc(s: seq<Participant>, m: Participant, g: string)
    ensures HasGender(s + [m], g) <==> HasGender(s, g) || m.gender == g
  {
    if HasGender(s + [m], g) {
      var p :| p in s + [m] && p.gender == g;
      if p != m {
        assert p in s;
      }
    }
    if HasGender(s, g) {
      var p :| p in s && p.gender == g;
      assert p in s + [m];
    }
    assert m in s + [m];
  }

  lemma CountOfSnoc(s: seq<Participant>, m: Participant, g: string)
    ensures CountOf(s + [m], g) == CountOf(s, g) + (if m.gender == g then 1 else 0)
  {
    assert (s + [m])[..|s|] == s;
  }

  /** One member's update of the count object. */
  lemma CountStep(s: seq<Participant>, m: Participant, before: map<string, Slot>, after: map<string, Slot>)
    requires Counts(s, before)
    requires m.gender == PROTO ==> after == before
    requires m.gender != PROTO && Inherited(m.gender) ==> after == before[m.gender := Text]
    requires !Inherited(m.gender) ==> after == before[m.gender := Count(CountOf(s, m.gender) + 1)]
    ensures Counts(s + [m], after)
  {
    var s' := s + [m];
    forall g ensures g in after <==> g != PROTO && HasGender(s', g) {
      HasGenderSnoc(s, m, g);
    }
    forall g | g in after && !Inherited(g) ensures after[g] == Count(CountOf(s', g)) {
      CountOfSnoc(s, m, g);
    }
  }

  lemma {:induction false} ZeroCount(s: seq<Participant>, g: string)
    requires forall p :: p in s ==> p.gender != g
    ensures CountOf(s, g) == 0
  {
    if s != [] {
      assert s == s[..|s| - 1] + [s[|s| - 1]];
      ZeroCount(s[..|s| - 1], g);
    }
  }

  /** `Math.max` and `Math.min` over the numeric values of the count object,
      visited through the members that carry them. */
  method MaxOfCounts(members: seq<Participant>, over: seq<Participant>, counts: map<string, Slot>)
    returns (max: nat, min: nat)
    requires over != []
    requires forall p :: p in over ==> p.gender in counts && counts[p.gender] == Count(CountOf(members, p.gender))
    ensures max == MaxCount(members, over) && min == MinCount(members, over)
  {
    max := counts[over[|over| - 1].gender].n;
    min := max;
    var i := |over| - 1;
    while i > 0
      invariant 0 <= i < |over|
      invariant max == MaxCount(members, over[i..]) && min == MinCount(members, over[i..])
    {
      i := i - 1;
      assert over[i..][1..] == over[i + 1..];
      var c := counts[over[i].gender].n;
      if c > max { max := c; }
      if c < min { min := c; }
    }
    assert over[0..] == over;
  }

  /** One team's contribution, computed from its count object. */
  method TeamGenderBalance(members: seq<Participant>) returns (balance: RealOrNaN)
    ensures balance == GenderBalance(members)
  {
    var genderCounts := GenderCounts(members);
    TalliedSpec(members);
    if |genderCounts| == 0 {
      assert genderCounts == map[];
      forall p | p in members ensures p.gender == PROTO {
        assert p.gender != PROTO ==> p.gender in genderCounts;
      }
      NoneTallied(members);
      balance := Real(0.0);
    } else if exists g | g in genderCounts :: genderCounts[g] == Text {
      assert Garbled(members) by {
        var g :| g in genderCounts && genderCounts[g] == Text;
        var p :| p in members && p.gender == g;
      }
      balance := RealNaN;
    } else {
      var over := Tallied(members);
      assert !Garbled(members) by {
        if p :| p in members && Garbling(p.gender) {
          assert false;
        }
      }
      assert over != [] by {
        var g :| g in genderCounts;
        var p :| p in members && p.gender == g;
        assert p in over;
      }
      var max, min := MaxOfCounts(members, over, genderCounts);
      CountsBounds(members, over);
      balance := Real(min as real / max as real);
    }
  }

  /** The accumulation loop of the gender-balance score. */
  method CalculateGenderBalanceScore(teams: seq<Team>) returns (score: Score)
    ensures score == GenderBalanceScore(teams)
  {
    if |teams| == 0 {
      return Num(0);
    }
    var totalScore: RealOrNaN := Real(0.0);
    for i := 0 to |teams|
      invariant totalScore == BalanceSum(teams[..i])
    {
      assert teams[..i + 1][..i] == teams[..i];
      var balance := TeamGenderBalance(teams[i].members);
      totalScore := Plus(totalScore, balance);
    }
    assert teams[..|teams|] == teams;
    if totalScore.RealNaN? {
      score := NaN;
    } else {
      score := Num(Round(totalScore.value / |teams| as real * 100.0));
    }
  }
}
