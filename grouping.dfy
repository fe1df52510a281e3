/** Grouping participants by college or by gender into a JavaScript object:
    a key list in insertion order and a group per key. */
module Grouping {
  import opened Types

  datatype Field = College | Gender

  function KeyOf(p: Participant, f: Field): string {
    match f
    case College => p.college
    case Gender => p.gender
  }

  predicate Distinct<T(==)>(s: seq<T>) {
    forall i, j :: 0 <= i < j < |s| ==> s[i] != s[j]
  }

  /** The distinct keys of `ps` in order of first appearance. */
  function Keys(ps: seq<Participant>, f: Field): seq<string>
  {
    if ps == [] then []
    else
      var ks := Keys(ps[..|ps| - 1], f);
      var k := KeyOf(ps[|ps| - 1], f);
      if k in ks then ks else ks + [k]
  }

  /** The members of `ps` whose key is `k`, in their order in `ps`. */
  function Select(ps: seq<Participant>, f: Field, k: string): seq<Participant>
  {
    if ps == [] then []
    else
      Select(ps[..|ps| - 1], f, k) + (if KeyOf(ps[|ps| - 1], f) == k then [ps[|ps| - 1]] else [])
  }

  /** The groups named by `ks`, one after another: the order in which a
      loop over `Object.keys` of the grouping object visits the participants. */
  function Grouped(ps: seq<Participant>, f: Field, ks: seq<string>): seq<Participant>
  {
    if ks == [] then []
    else Grouped(ps, f, ks[..|ks| - 1]) + Select(ps, f, ks[|ks| - 1])
  }

  /** One more key appends its group. */
  lemma GroupedNext(ps: seq<Participant>, f: Field, ks: seq<string>, g: nat)
    requires g < |ks|
    ensures Grouped(ps, f, ks[..g + 1]) == Grouped(ps, f, ks[..g]) + Select(ps, f, ks[g])
  {
    assert ks[..g + 1][..g] == ks[..g];
  }

  /** All members of the groups named by `ks`, as a bag. */
  function GroupBag(ps: seq<Participant>, f: Field, ks: seq<string>): multiset<Participant>
  {
    multiset(Grouped(ps, f, ks))
  }

  /** No participant's key is a name that `{}` already inherits; otherwise
      the grouping loop throws. */
  predicate Groupable(ps: seq<Participant>, f: Field) {
    forall p :: p in ps ==> !Inherited(KeyOf(p, f))
  }

  /** A key is listed iff some participant carries it, and no key is listed twice. */
  lemma {:induction false} KeysSpec(ps: seq<Participant>, f: Field)
    ensures Distinct(Keys(ps, f))
    ensures forall k :: k in Keys(ps, f) <==> exists p :: p in ps && KeyOf(p, f) == k
  {
    if ps != [] {
      var s := ps[..|ps| - 1];
      KeysSpec(s, f);
      assert ps == s + [ps[|ps| - 1]];
      forall k ensures k in Keys(ps, f) <==> exists p :: p in ps && KeyOf(p, f) == k {
        if k in Keys(s, f) {
          var p :| p in s && KeyOf(p, f) == k;
          assert p in ps;
        }
      }
    }
  }

  /** Every member of a group carries the group's key; the group is
      non-empty exactly when the key is listed. */
  lemma {:induction false} SelectSpec(ps: seq<Participant>, f: Field, k: string)
    ensures forall p :: p in Select(ps, f, k) ==> p in ps && KeyOf(p, f) == k
    ensures Select(ps, f, k) == [] <==> k !in Keys(ps, f)
  {
    if ps != [] {
      var s, p := ps[..|ps| - 1], ps[|ps| - 1];
      assert ps == s + [p];
      SelectSpec(s, f, k);
      SelectSnoc(s, p, f, k);
    }
  }

  /** The last key's group is the last part of the bag. */
  lemma GroupBagLast(ps: seq<Participant>, f: Field, ks: seq<string>)
    requires ks != []
    ensures GroupBag(ps, f, ks) == GroupBag(ps, f, ks[..|ks| - 1]) + multiset(Select(ps, f, ks[|ks| - 1]))
  {
  }

  lemma {:induction false} GroupBagSnoc(s: seq<Participant>, p: Participant, f: Field, ks: seq<string>)
    requires Distinct(ks)
    ensures GroupBag(s + [p], f, ks)
         == GroupBag(s, f, ks) + (if KeyOf(p, f) in ks then multiset{p} else multiset{})
  {
    if ks != [] {
      var init, last := ks[..|ks| - 1], ks[|ks| - 1];
      assert Distinct(init);
      GroupBagSnoc(s, p, f, init);
      SelectSnocBag(s, p, f, last);
      GroupBagLast(s + [p], f, ks);
      GroupBagLast(s, f, ks);
      KeySnoc(ks, KeyOf(p, f));
    }
  }

  /** A key is in a distinct list iff it is in the front part or is the
      last entry, and never both. */
  lemma KeySnoc(ks: seq<string>, k: string)
    requires Distinct(ks) && ks != []
    ensures k in ks <==> k in ks[..|ks| - 1] || k == ks[|ks| - 1]
    ensures k == ks[|ks| - 1] ==> k !in ks[..|ks| - 1]
  {
    assert ks == ks[..|ks| - 1] + [ks[|ks| - 1]];
  }

  lemma SelectSnocBag(s: seq<Participant>, p: Participant, f: Field, k: string)
    ensures multiset(Select(s + [p], f, k))
         == multiset(Select(s, f, k)) + (if KeyOf(p, f) == k then multiset{p} else multiset{})
  {
    SelectSnoc(s, p, f, k);
  }

  /** Appending a participant lists its key unless it is listed already. */
  lemma KeysSnoc(s: seq<Participant>, p: Participant, f: Field)
    ensures Keys(s + [p], f)
         == if KeyOf(p, f) in Keys(s, f) then Keys(s, f) else Keys(s, f) + [KeyOf(p, f)]
  {
    var ps := s + [p];
    assert ps[..|ps| - 1] == s;
  }

  /** Appending a participant keeps the grouping possible iff its key is
      not inherited. */
  lemma GroupableSnoc(s: seq<Participant>, p: Participant, f: Field)
    ensures Groupable(s + [p], f) <==> Groupable(s, f) && !Inherited(KeyOf(p, f))
  {
    assert p in s + [p];
    assert forall q :: q in s + [p] <==> q in s || q == p;
  }

  /** Appending a participant extends the group of its key, and only that one. */
  lemma SelectSnoc(s: seq<Participant>, p: Participant, f: Field, k: string)
    ensures Select(s + [p], f, k) == Select(s, f, k) + (if KeyOf(p, f) == k then [p] else [])
  {
    var ps := s + [p];
    assert ps[..|ps| - 1] == s;
  }

  /** One step of the object-building loop on a non-inherited key: the
      participant joins the group of its key, which is created and listed on
      first use. */
  lemma GroupStep(s: seq<Participant>, p: Participant, f: Field,
                  keys: seq<string>, groups: map<string, seq<Participant>>)
    requires keys == Keys(s, f)
    requires forall k :: k in groups <==> k in keys
    requires forall k :: k in groups ==> groups[k] == Select(s, f, k)
    ensures var k := KeyOf(p, f);
      var keys' := if k in groups then keys else keys + [k];
      var groups' := groups[k := if k in groups then groups[k] + [p] else [p]];
      && keys' == Keys(s + [p], f)
      && (forall k' :: k' in groups' <==> k' in keys')
      && (forall k' :: k' in groups' ==> groups'[k'] == Select(s + [p], f, k'))
  {
    var k := KeyOf(p, f);
    KeysSnoc(s, p, f);
    if k !in groups {
      SelectSpec(s, f, k);
    }
    var groups' := groups[k := if k in groups then groups[k] + [p] else [p]];
    forall k' | k' in groups' ensures groups'[k'] == Select(s + [p], f, k') {
      SelectSnoc(s, p, f, k');
    }
  }

  /** Grouping loses and invents nobody: the groups, taken in key order,
      hold exactly the participants. */
  lemma {:induction false} GroupsPartition(ps: seq<Participant>, f: Field)
    ensures GroupBag(ps, f, Keys(ps, f)) == multiset(ps)
  {
    if ps != [] {
      var s, p := ps[..|ps| - 1], ps[|ps| - 1];
      assert ps == s + [p];
      GroupsPartition(s, f);
      var ks, k := Keys(s, f), KeyOf(p, f);
      KeysSpec(s, f);
      KeysSnoc(s, p, f);
      GroupBagSnoc(s, p, f, ks);
      if k !in ks {
        var ks' := ks + [k];
        assert ks'[..|ks|] == ks;
        GroupBagLast(ps, f, ks');
        SelectSpec(s, f, k);
        SelectSnoc(s, p, f, k);
      }
    }
  }

  /** The object-building loop: each participant is pushed onto the group of
      its key, the group being created (and its key listed) on first use.
      For an inherited key the lookup finds a function (or the prototype),
      which is truthy, so no group is created, and the `push` that follows
      is not a function of it: the loop throws a TypeError. */
  method GroupBy(ps: seq<Participant>, f: Field)
    returns (thrown: bool, keys: seq<string>, groups: map<string, seq<Participant>>)
    ensures thrown <==> !Groupable(ps, f)
    ensures !thrown ==> keys == Keys(ps, f) && Distinct(keys)
    ensures !thrown ==> forall k :: k in groups <==> k in keys
    ensures !thrown ==> forall k :: k in groups ==> groups[k] == Select(ps, f, k) && groups[k] != []
  {
    thrown, keys, groups := false, [], map[];
    for i := 0 to |ps|
      invariant Groupable(ps[..i], f)
      invariant keys == Keys(ps[..i], f)
      invariant forall k :: k in groups <==> k in keys
      invariant forall k :: k in groups ==> groups[k] == Select(ps[..i], f, k)
    {
      var p := ps[i];
      var k := KeyOf(p, f);
      if Inherited(k) {
        assert p in ps;
        return true, keys, groups;
      }
      assert ps[..i + 1] == ps[..i] + [p];
      GroupableSnoc(ps[..i], p, f);
      GroupStep(ps[..i], p, f, keys, groups);
      var group := if k in groups then groups[k] + [p] else [p];
      if k !in groups {
        keys := keys + [k];
      }
      groups := groups[k := group];
    }
    assert ps[..|ps|] == ps;
    assert Distinct(keys) by { KeysSpec(ps, f); }
    forall k | k in groups ensures groups[k] != [] {
      SelectSpec(ps, f, k);
    }
  }
}
