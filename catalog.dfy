/** The catalog of test groups as a value: the derived statistics, the id
    discipline, and the rebuilds that the dashboard's handlers perform
    (append a group, append a case to the first group, delete a group or a
    case, move a case between groups by drag and drop). */
module Catalog {
  import opened Types

  /** Title of every group created by the "New Group" button. */
  const NewGroupTitle := "New Test Group"

  // ---------------------------------------------------------------------
  // Counting

  /** Every case of the catalog, group by group, in display order. */
  function AllCases(gs: seq<TestGroup>): seq<TestCase>
  {
    if gs == [] then [] else gs[0].cases + AllCases(gs[1..])
  }

  function SuccessBit(c: TestCase): nat
  {
    if c.status == Success then 1 else 0
  }

  /** Number of cases whose status is Success. */
  function SuccessIn(cs: seq<TestCase>): (n: nat)
    ensures n <= |cs|
  {
    if cs == [] then 0 else SuccessBit(cs[0]) + SuccessIn(cs[1..])
  }

  /** The statistics of a catalog: all cases, the successful ones, the groups. */
  function StatsOf(gs: seq<TestGroup>): (s: Stats)
    ensures s.success <= s.total
  {
    Stats(|AllCases(gs)|, SuccessIn(AllCases(gs)), |gs|)
  }

  /** Number of cases carrying the id `id`. */
  function CountId(cs: seq<TestCase>, id: string): (n: nat)
    ensures n <= |cs|
  {
    if cs == [] then 0
    else (if cs[0].id == id then 1 else 0) + CountId(cs[1..], id)
  }

  /** Number of groups carrying the id `id`. */
  function GroupCount(gs: seq<TestGroup>, id: string): (n: nat)
    ensures n <= |gs|
  {
    if gs == [] then 0
    else (if gs[0].id == id then 1 else 0) + GroupCount(gs[1..], id)
  }

  /** Ids are unique across the whole catalog: no two groups share an id, and no
      two cases share an id, whether in one group or in two. So every case id
      present in the catalog belongs to exactly one group. */
  ghost predicate UniqueIds(gs: seq<TestGroup>)
  {
    (forall id :: GroupCount(gs, id) <= 1) &&
    (forall id :: CountId(AllCases(gs), id) <= 1)
  }

  // ---------------------------------------------------------------------
  // Lookups (Array.prototype.findIndex and find)

  /** Index of the first group with id `id`, if any. */
  function FindGroup(gs: seq<TestGroup>, id: string): (r: Option<nat>)
    ensures r.Some? ==> r.value < |gs| && gs[r.value].id == id
    ensures r.Some? ==> forall k :: 0 <= k < r.value ==> gs[k].id != id
    ensures r.None? <==> GroupCount(gs, id) == 0
  {
    if gs == [] then None
    else if gs[0].id == id then Some(0)
    else match FindGroup(gs[1..], id)
      case None => None
      case Some(k) => Some(k + 1)
  }

  /** The first case with id `id`, if any. */
  function FindCase(cs: seq<TestCase>, id: string): (r: Option<TestCase>)
    ensures r.Some? ==> r.value in cs && r.value.id == id
    ensures r.None? <==> CountId(cs, id) == 0
  {
    if cs == [] then None
    else if cs[0].id == id then Some(cs[0])
    else FindCase(cs[1..], id)
  }

  /** FindCase returns the first case carrying the id: the one at position
      `k` when no case before `k` has it. */
  lemma {:induction false} FindCaseFirst(cs: seq<TestCase>, id: string, k: nat)
    requires k < |cs| && cs[k].id == id
    requires forall j :: 0 <= j < k ==> cs[j].id != id
    ensures FindCase(cs, id) == Some(cs[k])
  {
    if k > 0 {
      assert cs[1..][k - 1] == cs[k];
      FindCaseFirst(cs[1..], id, k - 1);
    }
  }

  /** The id of the group holding the first case with id `cid`, and that case. */
  function Locate(gs: seq<TestGroup>, cid: string): (r: Option<(string, TestCase)>)
    ensures r.None? <==> CountId(AllCases(gs), cid) == 0
    ensures r.Some? ==> r.value.1.id == cid
    ensures r.Some? ==> exists i :: 0 <= i < |gs| && gs[i].id == r.value.0 && r.value.1 in gs[i].cases
  {
    if gs == [] then None
    else
      CountIdAppend(gs[0].cases, AllCases(gs[1..]), cid);
      match FindCase(gs[0].cases, cid)
      case Some(c) => Some((gs[0].id, c))
      case None =>
        var r := Locate(gs[1..], cid);
        if r.Some? then
          var i :| 0 <= i < |gs[1..]| && gs[1..][i].id == r.value.0 && r.value.1 in gs[1..][i].cases;
          assert gs[i + 1] == gs[1..][i];
          r
        else r
  }

  // ---------------------------------------------------------------------
  // The rebuilds

  /** The catalog with `c` appended to the end of the first group. */
  function WithNewCase(gs: seq<TestGroup>, c: TestCase): (r: seq<TestGroup>)
    requires |gs| > 0
    ensures |r| == |gs| && r[0].id == gs[0].id && r[0].title == gs[0].title
    ensures r[0].cases == gs[0].cases + [c]
    ensures forall i :: 1 <= i < |gs| ==> r[i] == gs[i]
  {
    gs[0 := gs[0].(cases := gs[0].cases + [c])]
  }

  /** The cases whose id is not `id`, in their original order (`filter`). */
  function WithoutCase(cs: seq<TestCase>, id: string): (r: seq<TestCase>)
    ensures |r| + CountId(cs, id) == |cs|
    ensures CountId(r, id) == 0
    ensures multiset(r) <= multiset(cs)
    ensures CountId(cs, id) == 0 ==> r == cs
  {
    if cs == [] then []
    else
      var rest := WithoutCase(cs[1..], id);
      assert cs == [cs[0]] + cs[1..];
      if cs[0].id == id then rest
      else
        assert ([cs[0]] + rest)[1..] == rest;
        [cs[0]] + rest
  }

  /** The groups whose id is not `id`, in their original order (`filter`). */
  function RemoveGroup(gs: seq<TestGroup>, id: string): (r: seq<TestGroup>)
    ensures GroupCount(r, id) == 0
    ensures forall x :: x != id ==> GroupCount(r, x) == GroupCount(gs, x)
    ensures GroupCount(gs, id) == 0 ==> r == gs
  {
    if gs == [] then []
    else
      var rest := RemoveGroup(gs[1..], id);
      assert gs == [gs[0]] + gs[1..];
      if gs[0].id == id then rest
      else
        assert ([gs[0]] + rest)[1..] == rest;
        [gs[0]] + rest
  }

  /** Every group with id `gid` loses the cases with id `cid`; every other group
      is kept as it is (`map` over the groups). */
  function RemoveCase(gs: seq<TestGroup>, gid: string, cid: string): (r: seq<TestGroup>)
    ensures |r| == |gs|
    ensures forall i :: 0 <= i < |gs| ==> r[i].id == gs[i].id && r[i].title == gs[i].title
    ensures forall i :: 0 <= i < |gs| && gs[i].id != gid ==> r[i] == gs[i]
    ensures forall i :: 0 <= i < |gs| && gs[i].id == gid ==> r[i].cases == WithoutCase(gs[i].cases, cid)
  {
    if gs == [] then []
    else
      var g := if gs[0].id == gid then gs[0].(cases := WithoutCase(gs[0].cases, cid)) else gs[0];
      var rest := RemoveCase(gs[1..], gid, cid);
      assert forall i :: 1 <= i < |gs| ==> ([g] + rest)[i] == rest[i - 1] && gs[i] == gs[1..][i - 1];
      [g] + rest
  }

  /** The effect of dropping case `cid`, picked up from group `src`, onto group
      `tgt`: nothing changes when the groups are the same, when either group
      is unknown, or when `src` has no such case; otherwise every case with
      that id leaves `src` and the first one found is appended to `tgt`. */
  function MoveCase(gs: seq<TestGroup>, cid: string, src: string, tgt: string): (r: seq<TestGroup>)
    ensures |r| == |gs|
    ensures forall i :: 0 <= i < |gs| ==> r[i].id == gs[i].id && r[i].title == gs[i].title
  {
    if src == tgt then gs
    else match (FindGroup(gs, src), FindGroup(gs, tgt))
      case (Some(si), Some(ti)) =>
        (match FindCase(gs[si].cases, cid)
         case None => gs
         case Some(c) =>
           var moved := gs[si := gs[si].(cases := WithoutCase(gs[si].cases, cid))];
           moved[ti := moved[ti].(cases := moved[ti].cases + [c])])
      case _ => gs
  }

  // ---------------------------------------------------------------------
  // Lemmas about counting

  lemma {:induction false} AllCasesAppend(a: seq<TestGroup>, b: seq<TestGroup>)
    ensures AllCases(a + b) == AllCases(a) + AllCases(b)
  {
    if a == [] {
      assert a + b == b;
    } else {
      assert (a + b)[1..] == a[1..] + b;
      AllCasesAppend(a[1..], b);
    }
  }

  lemma {:induction false} SuccessInAppend(a: seq<TestCase>, b: seq<TestCase>)
    ensures SuccessIn(a + b) == SuccessIn(a) + SuccessIn(b)
  {
    if a == [] {
      assert a + b == b;
    } else {
      assert (a + b)[1..] == a[1..] + b;
      SuccessInAppend(a[1..], b);
    }
  }

  lemma {:induction false} CountIdAppend(a: seq<TestCase>, b: seq<TestCase>, id: string)
    ensures CountId(a + b, id) == CountId(a, id) + CountId(b, id)
  {
    if a == [] {
      assert a + b == b;
    } else {
      assert (a + b)[1..] == a[1..] + b;
      CountIdAppend(a[1..], b, id);
    }
  }

  lemma {:induction false} GroupCountAppend(a: seq<TestGroup>, b: seq<TestGroup>, id: string)
    ensures GroupCount(a + b, id) == GroupCount(a, id) + GroupCount(b, id)
  {
    if a == [] {
      assert a + b == b;
    } else {
      assert (a + b)[1..] == a[1..] + b;
      GroupCountAppend(a[1..], b, id);
    }
  }

  /** A case at some position is counted under its id. */
  lemma {:induction false} CountIdPresent(cs: seq<TestCase>, k: nat)
    requires k < |cs|
    ensures CountId(cs, cs[k].id) >= 1
  {
    if k > 0 {
      assert cs[1..][k - 1] == cs[k];
      CountIdPresent(cs[1..], k - 1);
    }
  }

  /** A case of the sequence is counted under its id. */
  lemma CountIdMember(cs: seq<TestCase>, c: TestCase)
    requires c in cs
    ensures CountId(cs, c.id) >= 1
  {
    var k :| 0 <= k < |cs| && cs[k] == c;
    CountIdPresent(cs, k);
  }

  /** A group at some position is counted under its id. */
  lemma {:induction false} GroupCountPresent(gs: seq<TestGroup>, k: nat)
    requires k < |gs|
    ensures GroupCount(gs, gs[k].id) >= 1
  {
    if k > 0 {
      assert gs[1..][k - 1] == gs[k];
      GroupCountPresent(gs[1..], k - 1);
    }
  }

  /** Filtering out one id leaves the count of every other id alone. */
  lemma {:induction false} WithoutCaseKeeps(cs: seq<TestCase>, id: string, x: string)
    requires x != id
    ensures CountId(WithoutCase(cs, id), x) == CountId(cs, x)
  {
    if cs != [] {
      WithoutCaseKeeps(cs[1..], id, x);
      var rest := WithoutCase(cs[1..], id);
      if cs[0].id != id {
        assert ([cs[0]] + rest)[1..] == rest;
      }
    }
  }

  /** Two distinct positions holding the same case id count twice. */
  lemma {:induction false} CountIdTwice(cs: seq<TestCase>, a: nat, b: nat)
    requires a < b < |cs| && cs[a].id == cs[b].id
    ensures CountId(cs, cs[a].id) >= 2
  {
    if a > 0 {
      CountIdTwice(cs[1..], a - 1, b - 1);
    } else {
      assert cs[1..][b - 1] == cs[b];
      CountIdPresent(cs[1..], b - 1);
    }
  }

  /** Two distinct positions holding the same group id count twice. */
  lemma {:induction false} GroupCountTwice(gs: seq<TestGroup>, a: nat, b: nat)
    requires a < b < |gs| && gs[a].id == gs[b].id
    ensures GroupCount(gs, gs[a].id) >= 2
  {
    if a > 0 {
      GroupCountTwice(gs[1..], a - 1, b - 1);
    } else {
      assert gs[1..][b - 1] == gs[b];
      GroupCountPresent(gs[1..], b - 1);
    }
  }

  /** Under distinct case ids, the case with a given id is determined by it. */
  lemma SameIdSameCase(cs: seq<TestCase>, c: TestCase, d: TestCase)
    requires CountId(cs, c.id) <= 1
    requires c in cs && d in cs && d.id == c.id
    ensures c == d
  {
    if c != d {
      var a :| 0 <= a < |cs| && cs[a] == c;
      var b :| 0 <= b < |cs| && cs[b] == d;
      if a < b { CountIdTwice(cs, a, b); } else { CountIdTwice(cs, b, a); }
    }
  }

  /** Under distinct group ids, a group id picks out one position. */
  lemma SameGroupIdSameIndex(gs: seq<TestGroup>, i: nat, j: nat)
    requires i < |gs| && j < |gs| && gs[i].id == gs[j].id
    requires GroupCount(gs, gs[i].id) <= 1
    ensures i == j
  {
    if i < j { GroupCountTwice(gs, i, j); }
    if j < i { GroupCountTwice(gs, j, i); }
  }

  /** The cases of the catalog, split around the group at position `i`. */
  lemma {:induction false} AllCasesSplit(gs: seq<TestGroup>, i: nat)
    requires i < |gs|
    ensures AllCases(gs) == AllCases(gs[..i]) + gs[i].cases + AllCases(gs[i + 1..])
  {
    if i > 0 {
      AllCasesSplit(gs[1..], i - 1);
      assert gs[1..][..i - 1] == gs[..i][1..];
      assert gs[1..][i..] == gs[i + 1..];
    }
  }

  /** Replacing the group at position `i` replaces its cases in AllCases and
      nothing else: the case count and the success count move by exactly the
      difference. */
  lemma UpdateSizes(gs: seq<TestGroup>, i: nat, g: TestGroup)
    requires i < |gs|
    ensures |AllCases(gs[i := g])| + |gs[i].cases| == |AllCases(gs)| + |g.cases|
    ensures SuccessIn(AllCases(gs[i := g])) + SuccessIn(gs[i].cases)
         == SuccessIn(AllCases(gs)) + SuccessIn(g.cases)
  {
    var hs := gs[i := g];
    AllCasesSplit(gs, i);
    AllCasesSplit(hs, i);
    assert hs[..i] == gs[..i] && hs[i + 1..] == gs[i + 1..];
    var pre, post := AllCases(gs[..i]), AllCases(gs[i + 1..]);
    SuccessInAppend(pre + gs[i].cases, post);
    SuccessInAppend(pre, gs[i].cases);
    SuccessInAppend(pre + g.cases, post);
    SuccessInAppend(pre, g.cases);
  }

  /** As UpdateSizes, for the number of cases carrying one id. */
  lemma UpdateIdCount(gs: seq<TestGroup>, i: nat, g: TestGroup, x: string)
    requires i < |gs|
    ensures CountId(AllCases(gs[i := g]), x) + CountId(gs[i].cases, x)
         == CountId(AllCases(gs), x) + CountId(g.cases, x)
  {
    var hs := gs[i := g];
    AllCasesSplit(gs, i);
    AllCasesSplit(hs, i);
    assert hs[..i] == gs[..i] && hs[i + 1..] == gs[i + 1..];
    var pre, post := AllCases(gs[..i]), AllCases(gs[i + 1..]);
    CountIdAppend(pre + gs[i].cases, post, x);
    CountIdAppend(pre, gs[i].cases, x);
    CountIdAppend(pre + g.cases, post, x);
    CountIdAppend(pre, g.cases, x);
  }

  /** As UpdateSizes, for the multiset of all cases. */
  lemma UpdateMultiset(gs: seq<TestGroup>, i: nat, g: TestGroup)
    requires i < |gs|
    ensures multiset(AllCases(gs[i := g])) + multiset(gs[i].cases)
         == multiset(AllCases(gs)) + multiset(g.cases)
  {
    var hs := gs[i := g];
    AllCasesSplit(gs, i);
    AllCasesSplit(hs, i);
    assert hs[..i] == gs[..i] && hs[i + 1..] == gs[i + 1..];
  }

  /** A case of some group is a case of the catalog. */
  lemma {:induction false} InAllCases(gs: seq<TestGroup>, i: nat, c: TestCase)
    requires i < |gs| && c in gs[i].cases
    ensures c in AllCases(gs)
  {
    AllCasesSplit(gs, i);
  }

  /** The cases of one group are counted within the catalog's count. */
  lemma GroupCountWithin(gs: seq<TestGroup>, i: nat, x: string)
    requires i < |gs|
    ensures CountId(gs[i].cases, x) <= CountId(AllCases(gs), x)
  {
    AllCasesSplit(gs, i);
    CountIdAppend(AllCases(gs[..i]) + gs[i].cases, AllCases(gs[i + 1..]), x);
    CountIdAppend(AllCases(gs[..i]), gs[i].cases, x);
  }

  /** Catalogs with the same group ids in the same order count group ids alike. */
  lemma {:induction false} GroupCountSameIds(gs: seq<TestGroup>, hs: seq<TestGroup>, x: string)
    requires |hs| == |gs|
    requires forall i :: 0 <= i < |gs| ==> hs[i].id == gs[i].id
    ensures GroupCount(hs, x) == GroupCount(gs, x)
  {
    if gs != [] {
      GroupCountSameIds(gs[1..], hs[1..], x);
    }
  }

  /** Removing the one case with id `c.id` takes away exactly `c`. */
  lemma {:induction false} WithoutOneCase(cs: seq<TestCase>, c: TestCase)
    requires CountId(cs, c.id) == 1 && c in cs
    ensures SuccessIn(WithoutCase(cs, c.id)) + SuccessBit(c) == SuccessIn(cs)
    ensures multiset(WithoutCase(cs, c.id)) + multiset{c} == multiset(cs)
  {
    if cs[0].id == c.id {
      WithoutHeadCase(cs, c);
    } else {
      assert cs == [cs[0]] + cs[1..];
      var rest := WithoutCase(cs[1..], c.id);
      WithoutOneCase(cs[1..], c);
      WithoutCaseKeepsHead(cs, c.id);
      assert ([cs[0]] + rest)[1..] == rest;
    }
  }

  /** WithoutOneCase when the case is the head of the list. */
  lemma WithoutHeadCase(cs: seq<TestCase>, c: TestCase)
    requires CountId(cs, c.id) == 1 && c in cs && cs[0].id == c.id
    ensures SuccessIn(WithoutCase(cs, c.id)) + SuccessBit(c) == SuccessIn(cs)
    ensures multiset(WithoutCase(cs, c.id)) + multiset{c} == multiset(cs)
  {
    SameIdSameCase(cs, c, cs[0]);
    WithoutCaseDropsHead(cs);
    assert cs == [cs[0]] + cs[1..];
  }

  // ---------------------------------------------------------------------
  // Statistics

  /** success <= total <= ... and each count of the statistics is the sum, over
      groups, of that group's own count. */
  lemma {:induction false} StatsSplit(a: seq<TestGroup>, b: seq<TestGroup>)
    ensures StatsOf(a + b).total == StatsOf(a).total + StatsOf(b).total
    ensures StatsOf(a + b).success == StatsOf(a).success + StatsOf(b).success
    ensures StatsOf(a + b).groups == StatsOf(a).groups + StatsOf(b).groups
  {
    AllCasesAppend(a, b);
    SuccessInAppend(AllCases(a), AllCases(b));
  }

  /** Appending an empty group adds one to the group count and nothing else,
      and keeps ids unique when its id is fresh. */
  lemma AddGroupEffect(gs: seq<TestGroup>, id: string)
    ensures StatsOf(gs + [TestGroup(id, NewGroupTitle, [])])
         == Stats(StatsOf(gs).total, StatsOf(gs).success, StatsOf(gs).groups + 1)
    ensures UniqueIds(gs) && GroupCount(gs, id) == 0
         ==> UniqueIds(gs + [TestGroup(id, NewGroupTitle, [])])
  {
    var g := TestGroup(id, NewGroupTitle, []);
    AllCasesAppend(gs, [g]);
    assert [g][1..] == [];
    assert AllCases(gs + [g]) == AllCases(gs);
    forall x ensures GroupCount(gs + [g], x) == GroupCount(gs, x) + GroupCount([g], x) {
      GroupCountAppend(gs, [g], x);
    }
  }

  /** Appending case `c` to the first group adds one to the total, one to the
      successes exactly when `c` succeeded, and leaves the group count alone. */
  lemma AddCaseStats(gs: seq<TestGroup>, c: TestCase)
    requires |gs| > 0
    ensures StatsOf(WithNewCase(gs, c)).total == StatsOf(gs).total + 1
    ensures StatsOf(WithNewCase(gs, c)).success == StatsOf(gs).success + SuccessBit(c)
    ensures StatsOf(WithNewCase(gs, c)).groups == StatsOf(gs).groups
  {
    UpdateSizes(gs, 0, gs[0].(cases := gs[0].cases + [c]));
    SuccessInAppend(gs[0].cases, [c]);
    assert [c][1..] == [];
  }

  /** A case with a fresh id, appended to the first group, keeps ids unique and
      is found in the first group and nowhere else. */
  lemma AddCasePlacement(gs: seq<TestGroup>, c: TestCase)
    requires |gs| > 0 && UniqueIds(gs) && CountId(AllCases(gs), c.id) == 0
    ensures UniqueIds(WithNewCase(gs, c))
    ensures Locate(WithNewCase(gs, c), c.id) == Some((gs[0].id, c))
  {
    var hs := WithNewCase(gs, c);
    assert [c][1..] == [];
    forall x
      ensures CountId(AllCases(hs), x) <= 1
      ensures GroupCount(hs, x) == GroupCount(gs, x)
    {
      UpdateIdCount(gs, 0, hs[0], x);
      CountIdAppend(gs[0].cases, [c], x);
      GroupCountSameIds(gs, hs, x);
    }
    assert c in hs[0].cases;
    LocateUnique(hs, 0, c);
  }

  /** Under unique ids, Locate finds the one group holding a case. */
  lemma {:induction false} LocateUnique(gs: seq<TestGroup>, i: nat, c: TestCase)
    requires i < |gs| && c in gs[i].cases
    requires CountId(AllCases(gs), c.id) <= 1
    ensures Locate(gs, c.id) == Some((gs[i].id, c))
  {
    CountIdAppend(gs[0].cases, AllCases(gs[1..]), c.id);
    if i == 0 {
      var d := FindCase(gs[0].cases, c.id);
      CountIdMember(gs[0].cases, c);
      SameIdSameCase(gs[0].cases, c, d.value);
    } else {
      assert gs[1..][i - 1] == gs[i];
      InAllCases(gs[1..], i - 1, c);
      CountIdMember(AllCases(gs[1..]), c);
      LocateUnique(gs[1..], i - 1, c);
    }
  }

  // ---------------------------------------------------------------------
  // Deleting a group

  /** Deleting the group at position `i`, whose id is unique, removes exactly
      that group and keeps the others in their original order. */
  lemma {:induction false} RemoveGroupAt(gs: seq<TestGroup>, i: nat)
    requires i < |gs| && GroupCount(gs, gs[i].id) == 1
    ensures RemoveGroup(gs, gs[i].id) == gs[..i] + gs[i + 1..]
  {
    var id := gs[i].id;
    if i == 0 {
      assert GroupCount(gs[1..], id) == 0;
    } else {
      var tail := gs[1..];
      assert tail[i - 1] == gs[i];
      GroupCountPresent(tail, i - 1);
      RemoveGroupAt(tail, i - 1);
      DropAtTail(gs, i);
    }
  }

  /** Confirmed deletion of a group: the total drops by that group's case count,
      the successes by its successes, the group count by one; none of its cases
      is left anywhere, and ids stay unique. */
  lemma RemoveGroupEffect(gs: seq<TestGroup>, i: nat)
    requires UniqueIds(gs) && i < |gs|
    ensures StatsOf(RemoveGroup(gs, gs[i].id)).total + |gs[i].cases| == StatsOf(gs).total
    ensures StatsOf(RemoveGroup(gs, gs[i].id)).success + SuccessIn(gs[i].cases) == StatsOf(gs).success
    ensures StatsOf(RemoveGroup(gs, gs[i].id)).groups + 1 == StatsOf(gs).groups
    ensures forall c :: c in gs[i].cases ==> Locate(RemoveGroup(gs, gs[i].id), c.id).None?
    ensures UniqueIds(RemoveGroup(gs, gs[i].id))
  {
    var r := RemoveGroup(gs, gs[i].id);
    GroupCountPresent(gs, i);
    RemoveGroupAt(gs, i);
    AllCasesSplit(gs, i);
    var pre, post := AllCases(gs[..i]), AllCases(gs[i + 1..]);
    AllCasesAppend(gs[..i], gs[i + 1..]);
    SuccessInAppend(pre + gs[i].cases, post);
    SuccessInAppend(pre, gs[i].cases);
    SuccessInAppend(pre, post);
    forall x ensures CountId(AllCases(r), x) + CountId(gs[i].cases, x) == CountId(AllCases(gs), x) {
      CountIdAppend(pre + gs[i].cases, post, x);
      CountIdAppend(pre, gs[i].cases, x);
      CountIdAppend(pre, post, x);
    }
    forall c | c in gs[i].cases ensures Locate(r, c.id).None? {
      CountIdMember(gs[i].cases, c);
      assert CountId(gs[i].cases, c.id) != 0;
    }
  }

  /** Deleting any group id, present or not, keeps ids unique. */
  lemma RemoveGroupKeepsIdsUnique(gs: seq<TestGroup>, id: string)
    requires UniqueIds(gs)
    ensures UniqueIds(RemoveGroup(gs, id))
  {
    match FindGroup(gs, id)
    case None =>
    case Some(i) => RemoveGroupEffect(gs, i);
  }

  // ---------------------------------------------------------------------
  // Deleting a case

  /** Deleting a case touches only groups whose id matches, and never raises
      any id count, so unique ids stay unique. */
  lemma {:induction false} RemoveCaseCounts(gs: seq<TestGroup>, gid: string, cid: string, x: string)
    ensures CountId(AllCases(RemoveCase(gs, gid, cid)), x) <= CountId(AllCases(gs), x)
    ensures x != cid ==> CountId(AllCases(RemoveCase(gs, gid, cid)), x) == CountId(AllCases(gs), x)
  {
    if gs != [] {
      var r := RemoveCase(gs, gid, cid);
      RemoveCaseCounts(gs[1..], gid, cid, x);
      if x != cid { WithoutCaseKeeps(gs[0].cases, cid, x); }
      assert r[1..] == RemoveCase(gs[1..], gid, cid);
      CountIdAppend(r[0].cases, AllCases(r[1..]), x);
      CountIdAppend(gs[0].cases, AllCases(gs[1..]), x);
    }
  }

  /** Under unique group ids, deleting case `cid` from the group at position
      `i` rewrites that one group and keeps every other group as it is. */
  lemma RemoveCaseAt(gs: seq<TestGroup>, i: nat, cid: string)
    requires i < |gs| && GroupCount(gs, gs[i].id) <= 1
    ensures RemoveCase(gs, gs[i].id, cid) == gs[i := gs[i].(cases := WithoutCase(gs[i].cases, cid))]
  {
    var r := RemoveCase(gs, gs[i].id, cid);
    var h := gs[i].(cases := WithoutCase(gs[i].cases, cid));
    forall j | 0 <= j < |gs| ensures r[j] == gs[i := h][j] {
      if gs[j].id == gs[i].id { SameGroupIdSameIndex(gs, i, j); }
    }
  }

  /** Confirmed deletion of case `c` from its group at position `i`: the total
      drops by one, the successes by one exactly when `c` succeeded, and the
      group count stays. */
  lemma RemoveCaseStats(gs: seq<TestGroup>, i: nat, c: TestCase)
    requires UniqueIds(gs) && i < |gs| && c in gs[i].cases
    ensures StatsOf(RemoveCase(gs, gs[i].id, c.id)).total + 1 == StatsOf(gs).total
    ensures StatsOf(RemoveCase(gs, gs[i].id, c.id)).success + SuccessBit(c) == StatsOf(gs).success
    ensures StatsOf(RemoveCase(gs, gs[i].id, c.id)).groups == StatsOf(gs).groups
  {
    RemoveCaseAt(gs, i, c.id);
    GroupCountWithin(gs, i, c.id);
    CountIdMember(gs[i].cases, c);
    UpdateSizes(gs, i, gs[i].(cases := WithoutCase(gs[i].cases, c.id)));
    WithoutOneCase(gs[i].cases, c);
  }

  /** After deleting case `c`, no case with its id is left, and ids stay unique. */
  lemma RemoveCaseGone(gs: seq<TestGroup>, i: nat, c: TestCase)
    requires UniqueIds(gs) && i < |gs| && c in gs[i].cases
    ensures Locate(RemoveCase(gs, gs[i].id, c.id), c.id).None?
    ensures UniqueIds(RemoveCase(gs, gs[i].id, c.id))
  {
    var r := RemoveCase(gs, gs[i].id, c.id);
    RemoveCaseAt(gs, i, c.id);
    GroupCountWithin(gs, i, c.id);
    CountIdMember(gs[i].cases, c);
    UpdateIdCount(gs, i, gs[i].(cases := WithoutCase(gs[i].cases, c.id)), c.id);
    forall x
      ensures CountId(AllCases(r), x) <= CountId(AllCases(gs), x)
      ensures GroupCount(r, x) == GroupCount(gs, x)
    {
      RemoveCaseCounts(gs, gs[i].id, c.id, x);
      GroupCountSameIds(gs, r, x);
    }
  }

  /** Deleting any case id from any group id keeps ids unique. */
  lemma RemoveCaseKeepsIdsUnique(gs: seq<TestGroup>, gid: string, cid: string)
    requires UniqueIds(gs)
    ensures UniqueIds(RemoveCase(gs, gid, cid))
  {
    var r := RemoveCase(gs, gid, cid);
    forall x
      ensures CountId(AllCases(r), x) <= CountId(AllCases(gs), x)
      ensures GroupCount(r, x) == GroupCount(gs, x)
    {
      RemoveCaseCounts(gs, gid, cid, x);
      GroupCountSameIds(gs, r, x);
    }
  }

  /** The filter keeps a leading case with another id in front. */
  lemma WithoutCaseKeepsHead(cs: seq<TestCase>, id: string)
    requires cs != [] && cs[0].id != id
    ensures WithoutCase(cs, id) == [cs[0]] + WithoutCase(cs[1..], id)
  {
  }

  /** A leading case whose id occurs once is the only case the filter drops. */
  lemma WithoutCaseDropsHead(cs: seq<TestCase>)
    requires cs != [] && CountId(cs, cs[0].id) == 1
    ensures WithoutCase(cs, cs[0].id) == cs[1..]
  {
    assert CountId(cs[1..], cs[0].id) == 0;
  }

  /** Dropping position `k` of a sequence is keeping its head and dropping
      position `k - 1` of its tail. */
  lemma DropAtTail<T>(s: seq<T>, k: nat)
    requires 0 < k < |s|
    ensures [s[0]] + (s[1..][..k - 1] + s[1..][k..]) == s[..k] + s[k + 1..]
  {
    assert s[1..][..k - 1] == s[1..k] && s[1..][k..] == s[k + 1..];
    assert s[..k] == [s[0]] + s[1..k];
  }

  /** Deleting a case whose id is unique in its list removes exactly that
      case and keeps the others in their original order. */
  lemma {:induction false} WithoutCaseAt(cs: seq<TestCase>, k: nat)
    requires k < |cs| && CountId(cs, cs[k].id) == 1
    ensures WithoutCase(cs, cs[k].id) == cs[..k] + cs[k + 1..]
  {
    if k == 0 {
      WithoutCaseDropsHead(cs);
    } else {
      CountIdTail(cs, k);
      WithoutCaseKeepsHead(cs, cs[k].id);
      WithoutCaseAt(cs[1..], k - 1);
      DropAtTail(cs, k);
    }
  }

  /** A case id counted once, at a position past the head, is not the head's
      id and is counted once in the tail. */
  lemma CountIdTail(cs: seq<TestCase>, k: nat)
    requires 0 < k < |cs| && CountId(cs, cs[k].id) == 1
    ensures cs[1..][k - 1] == cs[k]
    ensures cs[0].id != cs[k].id && CountId(cs[1..], cs[k].id) == 1
  {
    assert cs[1..][k - 1] == cs[k];
    CountIdPresent(cs[1..], k - 1);
  }

  /** Under unique ids, deleting the case at position `k` of the group at
      position `i` removes exactly that case; every other case of that group
      stays in its order, and every other group stays as it is. */
  lemma RemoveCaseInOrder(gs: seq<TestGroup>, i: nat, k: nat)
    requires UniqueIds(gs) && i < |gs| && k < |gs[i].cases|
    ensures RemoveCase(gs, gs[i].id, gs[i].cases[k].id)
         == gs[i := gs[i].(cases := gs[i].cases[..k] + gs[i].cases[k + 1..])]
  {
    var cs := gs[i].cases;
    RemoveCaseAt(gs, i, cs[k].id);
    GroupCountWithin(gs, i, cs[k].id);
    CountIdPresent(cs, k);
    WithoutCaseAt(cs, k);
  }

  // ---------------------------------------------------------------------
  // Moving a case

  /** The drop takes effect: different groups, both present, and the source
      holds a case with the id. */
  ghost predicate MoveApplies(gs: seq<TestGroup>, cid: string, src: string, tgt: string)
  {
    src != tgt && FindGroup(gs, src).Some? && FindGroup(gs, tgt).Some? &&
    FindCase(gs[FindGroup(gs, src).value].cases, cid).Some?
  }

  /** Every guard of the drop fails closed: same group, an unknown source or
      target, or a source without the case leaves the catalog as it is. */
  lemma MoveNoOp(gs: seq<TestGroup>, cid: string, src: string, tgt: string)
    requires src == tgt || GroupCount(gs, src) == 0 || GroupCount(gs, tgt) == 0
          || (FindGroup(gs, src).Some? && CountId(gs[FindGroup(gs, src).value].cases, cid) == 0)
    ensures MoveCase(gs, cid, src, tgt) == gs
  {
  }

  /** The two rewrites a drop that takes effect performs, one group each. */
  lemma MoveShape(gs: seq<TestGroup>, cid: string, src: string, tgt: string)
    requires MoveApplies(gs, cid, src, tgt)
    ensures var si, ti := FindGroup(gs, src).value, FindGroup(gs, tgt).value;
            var c := FindCase(gs[si].cases, cid).value;
            si != ti &&
            MoveCase(gs, cid, src, tgt)
            == gs[si := gs[si].(cases := WithoutCase(gs[si].cases, cid))][ti := gs[ti].(cases := gs[ti].cases + [c])]
  {
  }

  /** The bookkeeping of a move on multisets: `m` is `a` with `x` taken out of
      one part and `r` is `m` with `x` added to another, so `r` is `a`. */
  lemma MultisetShift<T>(a: multiset<T>, m: multiset<T>, r: multiset<T>,
                         part: multiset<T>, rest: multiset<T>, other: multiset<T>, x: multiset<T>)
    requires m + part == a + rest && part == rest + x
    requires r + other == m + (other + x)
    ensures r == a
  {
    forall o ensures r[o] == a[o] {
      assert (m + part)[o] == (a + rest)[o];
      assert (r + other)[o] == (m + (other + x))[o];
    }
  }

  /** Under unique ids a move neither creates nor destroys a case: the catalog
      holds the same cases as before, only in other places. */
  lemma MovePermutes(gs: seq<TestGroup>, cid: string, src: string, tgt: string)
    requires UniqueIds(gs)
    ensures multiset(AllCases(MoveCase(gs, cid, src, tgt))) == multiset(AllCases(gs))
  {
    if MoveApplies(gs, cid, src, tgt) {
      MoveShape(gs, cid, src, tgt);
      var si, ti := FindGroup(gs, src).value, FindGroup(gs, tgt).value;
      var c := FindCase(gs[si].cases, cid).value;
      var cs, ts := gs[si].cases, gs[ti].cases;
      var w := WithoutCase(cs, cid);
      var moved := gs[si := gs[si].(cases := w)];
      var r := moved[ti := gs[ti].(cases := ts + [c])];
      GroupCountWithin(gs, si, cid);
      WithoutOneCase(cs, c);
      UpdateMultiset(gs, si, moved[si]);
      UpdateMultiset(moved, ti, r[ti]);
      assert moved[ti] == gs[ti];
      assert multiset(ts + [c]) == multiset(ts) + multiset{c};
      MultisetShift(multiset(AllCases(gs)), multiset(AllCases(moved)), multiset(AllCases(r)),
                    multiset(cs), multiset(w), multiset(ts), multiset{c});
    }
  }

  /** Under unique ids a move leaves the total and the success count unchanged. */
  lemma MoveKeepsCounts(gs: seq<TestGroup>, cid: string, src: string, tgt: string)
    requires UniqueIds(gs)
    ensures StatsOf(MoveCase(gs, cid, src, tgt)).total == StatsOf(gs).total
    ensures StatsOf(MoveCase(gs, cid, src, tgt)).success == StatsOf(gs).success
  {
    if MoveApplies(gs, cid, src, tgt) {
      MoveShape(gs, cid, src, tgt);
      var si, ti := FindGroup(gs, src).value, FindGroup(gs, tgt).value;
      var c := FindCase(gs[si].cases, cid).value;
      var moved := gs[si := gs[si].(cases := WithoutCase(gs[si].cases, cid))];
      GroupCountWithin(gs, si, cid);
      WithoutOneCase(gs[si].cases, c);
      UpdateSizes(gs, si, moved[si]);
      UpdateSizes(moved, ti, gs[ti].(cases := gs[ti].cases + [c]));
      SuccessInAppend(gs[ti].cases, [c]);
      assert [c][1..] == [];
    }
  }

  /** A move that takes effect keeps the count of every case id. */
  lemma MoveIdCount(gs: seq<TestGroup>, cid: string, src: string, tgt: string, x: string)
    requires UniqueIds(gs) && MoveApplies(gs, cid, src, tgt)
    ensures CountId(AllCases(MoveCase(gs, cid, src, tgt)), x) == CountId(AllCases(gs), x)
  {
    MoveShape(gs, cid, src, tgt);
    var si, ti := FindGroup(gs, src).value, FindGroup(gs, tgt).value;
    var c := FindCase(gs[si].cases, cid).value;
    var cs := gs[si].cases;
    var moved := gs[si := gs[si].(cases := WithoutCase(cs, cid))];
    GroupCountWithin(gs, si, cid);
    assert [c][1..] == [];
    UpdateIdCount(gs, si, moved[si], x);
    UpdateIdCount(moved, ti, gs[ti].(cases := gs[ti].cases + [c]), x);
    CountIdAppend(gs[ti].cases, [c], x);
    if x != cid { WithoutCaseKeeps(cs, cid, x); }
  }

  /** Under unique ids a move keeps ids unique. */
  lemma MoveKeepsIdsUnique(gs: seq<TestGroup>, cid: string, src: string, tgt: string)
    requires UniqueIds(gs)
    ensures UniqueIds(MoveCase(gs, cid, src, tgt))
  {
    var r := MoveCase(gs, cid, src, tgt);
    forall x
      ensures GroupCount(r, x) == GroupCount(gs, x)
      ensures CountId(AllCases(r), x) == CountId(AllCases(gs), x)
    {
      GroupCountSameIds(gs, r, x);
      if MoveApplies(gs, cid, src, tgt) { MoveIdCount(gs, cid, src, tgt, x); }
    }
  }

  /** Under unique ids a drop, whatever its outcome, leaves the statistics as
      they were and the ids unique. */
  lemma MoveEffect(gs: seq<TestGroup>, cid: string, src: string, tgt: string)
    requires UniqueIds(gs)
    ensures StatsOf(MoveCase(gs, cid, src, tgt)) == StatsOf(gs)
    ensures UniqueIds(MoveCase(gs, cid, src, tgt))
  {
    MoveKeepsCounts(gs, cid, src, tgt);
    MoveKeepsIdsUnique(gs, cid, src, tgt);
  }

  /** A successful move relocates the case: once `c` (found through `cid` in
      group `src`) is dropped on an existing, different group `tgt`, the case
      with that id lives in `tgt`, field for field identical. */
  lemma MoveRelocates(gs: seq<TestGroup>, cid: string, src: string, tgt: string, c: TestCase)
    requires UniqueIds(gs)
    requires src != tgt && GroupCount(gs, tgt) != 0
    requires Locate(gs, cid) == Some((src, c))
    ensures Locate(MoveCase(gs, cid, src, tgt), cid) == Some((tgt, c))
  {
    var i :| 0 <= i < |gs| && gs[i].id == src && c in gs[i].cases;
    GroupCountPresent(gs, i);
    var si, ti := FindGroup(gs, src).value, FindGroup(gs, tgt).value;
    SameGroupIdSameIndex(gs, i, si);
    GroupCountWithin(gs, si, cid);
    var d := FindCase(gs[si].cases, cid);
    CountIdMember(gs[si].cases, c);
    SameIdSameCase(gs[si].cases, c, d.value);
    var r := MoveCase(gs, cid, src, tgt);
    assert c in r[ti].cases;
    MoveEffect(gs, cid, src, tgt);
    LocateUnique(r, ti, c);
  }

  /** Under unique ids, dropping the case at position `k` of the group at
      position `si` on the group at position `ti` takes exactly that case out
      of the source, keeping the source's other cases in order, and appends it
      to the end of the target; every other group stays as it is. */
  lemma MoveInOrder(gs: seq<TestGroup>, si: nat, ti: nat, k: nat)
    requires UniqueIds(gs) && si < |gs| && ti < |gs| && si != ti && k < |gs[si].cases|
    ensures var cs := gs[si].cases;
            MoveCase(gs, cs[k].id, gs[si].id, gs[ti].id)
            == gs[si := gs[si].(cases := cs[..k] + cs[k + 1..])][ti := gs[ti].(cases := gs[ti].cases + [cs[k]])]
  {
    var cs := gs[si].cases;
    var cid, src, tgt := cs[k].id, gs[si].id, gs[ti].id;
    GroupCountPresent(gs, si);
    GroupCountPresent(gs, ti);
    assert src != tgt by {
      if src == tgt { SameGroupIdSameIndex(gs, si, ti); }
    }
    SameGroupIdSameIndex(gs, FindGroup(gs, src).value, si);
    SameGroupIdSameIndex(gs, FindGroup(gs, tgt).value, ti);
    GroupCountWithin(gs, si, cid);
    CountIdPresent(cs, k);
    var d := FindCase(cs, cid);
    SameIdSameCase(cs, cs[k], d.value);
    MoveShape(gs, cid, src, tgt);
    WithoutCaseAt(cs, k);
  }

  /** Moving a case to another group and back returns it, unchanged, to its
      original group, and the statistics to their original values. */
  lemma MoveBackRestores(gs: seq<TestGroup>, cid: string, src: string, tgt: string, c: TestCase)
    requires UniqueIds(gs)
    requires src != tgt && GroupCount(gs, tgt) != 0
    requires Locate(gs, cid) == Some((src, c))
    ensures Locate(MoveCase(MoveCase(gs, cid, src, tgt), cid, tgt, src), cid) == Some((src, c))
    ensures StatsOf(MoveCase(MoveCase(gs, cid, src, tgt), cid, tgt, src)) == StatsOf(gs)
  {
    var r := MoveCase(gs, cid, src, tgt);
    MoveRelocates(gs, cid, src, tgt, c);
    MoveEffect(gs, cid, src, tgt);
    GroupCountSameIds(gs, r, src);
    var i :| 0 <= i < |gs| && gs[i].id == src && c in gs[i].cases;
    MoveRelocates(r, cid, tgt, src, c);
    MoveEffect(r, cid, tgt, src);
  }

  /** The position is not restored: a group [a, b] whose `a` is moved away and
      back reads [b, a]. */
  lemma MoveBackReorders(a: TestCase, b: TestCase)
    requires a.id != b.id
    ensures var gs := [TestGroup("g1", "G1", [a, b]), TestGroup("g2", "G2", [])];
            MoveCase(MoveCase(gs, a.id, "g1", "g2"), a.id, "g2", "g1")[0].cases == [b, a]
  {
    var gs := [TestGroup("g1", "G1", [a, b]), TestGroup("g2", "G2", [])];
    assert FindGroup(gs, "g1") == Some(0);
    assert FindGroup(gs, "g2") == Some(1);
    assert WithoutCase([a, b], a.id) == [b] by {
      assert [a, b][1..] == [b];
      assert [b][1..] == [];
    }
    assert FindCase([a, b], a.id) == Some(a);
    MoveShape(gs, a.id, "g1", "g2");
    var r := MoveCase(gs, a.id, "g1", "g2");
    assert [] + [a] == [a];
    assert r == [TestGroup("g1", "G1", [b]), TestGroup("g2", "G2", [a])];
    assert FindGroup(r, "g2") == Some(1);
    assert FindGroup(r, "g1") == Some(0);
    assert FindCase([a], a.id) == Some(a);
    MoveShape(r, a.id, "g2", "g1");
    assert [b] + [a] == [b, a];
  }

  /** Without unique ids the move is lossy: the source filter drops every case
      with the id but only one is appended to the target. */
  lemma MoveWithDuplicateIdsLosesCases(c: TestCase)
    ensures var gs := [TestGroup("g1", "G1", [c, c]), TestGroup("g2", "G2", [])];
            StatsOf(gs).total == 2 && StatsOf(MoveCase(gs, c.id, "g1", "g2")).total == 1
  {
    var gs := [TestGroup("g1", "G1", [c, c]), TestGroup("g2", "G2", [])];
    assert FindGroup(gs, "g1") == Some(0);
    assert FindGroup(gs, "g2") == Some(1);
    assert WithoutCase([c, c], c.id) == [] by {
      assert [c, c][1..] == [c];
      assert [c][1..] == [];
    }
    assert FindCase([c, c], c.id) == Some(c);
    MoveShape(gs, c.id, "g1", "g2");
    var r := MoveCase(gs, c.id, "g1", "g2");
    assert [] + [c] == [c];
    assert r == [TestGroup("g1", "G1", []), TestGroup("g2", "G2", [c])];
    assert gs[1..][1..] == [] && r[1..][1..] == [];
    assert AllCases(gs[1..]) == [];
    assert AllCases(gs) == [c, c] + [];
    assert AllCases(r[1..]) == [c] + [];
    assert AllCases(r) == [] + [c];
  }
}
