/**
 * The batch scheduler of the `check` command (CheckDomainsCommand): domains are grouped
 * by TLD, then checked in rounds that take the front domain of each group, at most
 * `concurrency` of them, so that no registry sees two queries in one round.
 */
module Scheduler {
  import opened Wrappers
  import opened Text
  import opened Domain
  import opened Checker

  const DefaultConcurrency: nat := 5

  /** The `--concurrency` clamp: a value below 1 falls back to the default of 5. */
  function EffectiveConcurrency(requested: int): (c: nat)
    ensures c >= 1
    ensures requested >= 1 ==> c == requested
    ensures requested < 1 ==> c == DefaultConcurrency
  {
    if requested < 1 then DefaultConcurrency else requested
  }

  /** Clamping a clamped value changes nothing. */
  lemma EffectiveConcurrencyIdempotent(requested: int)
    ensures EffectiveConcurrency(EffectiveConcurrency(requested)) == EffectiveConcurrency(requested)
  {
  }

  // ---------------------------------------------------------------------------
  // Grouping by TLD

  /** The TLD keys of `ds`, each once, in order of first appearance. */
  function Keys(ds: seq<string>): seq<string> {
    if ds == [] then []
    else
      var prior := Keys(ds[..|ds| - 1]);
      var key := TldKey(ds[|ds| - 1]);
      if key in prior then prior else prior + [key]
  }

  /** The domains of `ds` whose TLD key is `t`, in input order. */
  function Members(ds: seq<string>, t: string): seq<string> {
    if ds == [] then []
    else (if TldKey(ds[0]) == t then [ds[0]] else []) + Members(ds[1..], t)
  }

  /** One entry of the grouped array: a TLD key and its domains. */
  datatype Group = Group(tld: string, members: seq<string>)

  /** What `groupDomainsByTld` returns: one group per key, in order of first appearance. */
  function Grouped(ds: seq<string>): seq<Group> {
    var keys := Keys(ds);
    seq(|keys|, i requires 0 <= i < |keys| => Group(keys[i], Members(ds, keys[i])))
  }

  lemma {:induction false} MembersAppend(a: seq<string>, b: seq<string>, t: string)
    ensures Members(a + b, t) == Members(a, t) + Members(b, t)
  {
    if a == [] {
      assert a + b == b;
    } else {
      var own := if TldKey(a[0]) == t then [a[0]] else [];
      assert (a + b)[0] == a[0] && (a + b)[1..] == a[1..] + b;
      MembersAppend(a[1..], b, t);
      Regroup(own, Members(a[1..], t), Members(b, t));
    }
  }

  lemma MembersSingle(d: string, t: string)
    ensures Members([d], t) == if TldKey(d) == t then [d] else []
  {
    assert [d][1..] == [];
  }

  lemma MembersSnoc(ds: seq<string>, d: string, t: string)
    ensures Members(ds + [d], t) == Members(ds, t) + (if TldKey(d) == t then [d] else [])
  {
    MembersAppend(ds, [d], t);
    MembersSingle(d, t);
  }

  /** Every member of a group has the group's key and comes from the input. */
  lemma {:induction false} MembersKey(ds: seq<string>, t: string)
    ensures forall x :: x in Members(ds, t) ==> TldKey(x) == t && x in ds
  {
    if ds != [] {
      MembersKey(ds[1..], t);
      assert forall x :: x in ds[1..] ==> x in ds;
    }
  }

  /** A key is listed exactly when some domain has it. */
  lemma {:induction false} KeysMembers(ds: seq<string>, t: string)
    ensures t in Keys(ds) <==> Members(ds, t) != []
  {
    if ds != [] {
      var prior, last := ds[..|ds| - 1], ds[|ds| - 1];
      assert prior + [last] == ds;
      KeysMembers(prior, t);
      KeysSnoc(prior, last);
      MembersSnoc(prior, last, t);
    }
  }

  /** No key is listed twice. */
  lemma {:induction false} KeysDistinct(ds: seq<string>)
    ensures Distinct(Keys(ds))
  {
    if ds != [] {
      KeysDistinct(ds[..|ds| - 1]);
    }
  }

  /** `$grouped[$tld]`: the position of the group with key `key`, if there is one. */
  function FindGroup(gs: seq<Group>, key: string): (r: Option<nat>)
    ensures r.Some? ==> r.value < |gs| && gs[r.value].tld == key
    ensures r.None? ==> forall i :: 0 <= i < |gs| ==> gs[i].tld != key
  {
    if gs == [] then None
    else if gs[0].tld == key then Some(0)
    else match FindGroup(gs[1..], key)
      case None => None
      case Some(i) => Some(i + 1)
  }

  /** `$grouped[$tld][] = $domain`: append to the key's group, or open a new group at the end. */
  function AddDomain(gs: seq<Group>, d: string): seq<Group> {
    var key := TldKey(d);
    match FindGroup(gs, key)
    case Some(j) => gs[j := Group(key, gs[j].members + [d])]
    case None => gs + [Group(key, [d])]
  }

  lemma KeysSnoc(ds: seq<string>, d: string)
    ensures Keys(ds + [d]) == if TldKey(d) in Keys(ds) then Keys(ds) else Keys(ds) + [TldKey(d)]
  {
    assert (ds + [d])[..|ds|] == ds;
  }

  /** Grouping one more domain is adding it to the grouping of the others. */
  lemma GroupedStep(ds: seq<string>, d: string)
    ensures Grouped(ds + [d]) == AddDomain(Grouped(ds), d)
  {
    var gs := Grouped(ds);
    var key := TldKey(d);
    KeysDistinct(ds);
    KeysSnoc(ds, d);
    match FindGroup(gs, key)
    case Some(j) =>
      GroupedStepFound(ds, d, j);
    case None =>
      forall i | 0 <= i < |Keys(ds)| ensures Keys(ds)[i] != key {
        assert gs[i].tld == Keys(ds)[i];
      }
      GroupedStepNew(ds, d);
  }

  lemma GroupedStepFound(ds: seq<string>, d: string, j: nat)
    requires j < |Keys(ds)| && Keys(ds)[j] == TldKey(d) && Distinct(Keys(ds))
    ensures var gs := Grouped(ds);
            Grouped(ds + [d]) == gs[j := Group(TldKey(d), gs[j].members + [d])]
  {
    var gs := Grouped(ds);
    var key := TldKey(d);
    KeysSnoc(ds, d);
    var gs' := Grouped(ds + [d]);
    assert |gs'| == |gs|;
    forall i | 0 <= i < |gs| ensures gs'[i] == gs[j := Group(key, gs[j].members + [d])][i] {
      MembersSnoc(ds, d, Keys(ds)[i]);
    }
  }

  lemma GroupedStepNew(ds: seq<string>, d: string)
    requires TldKey(d) !in Keys(ds)
    ensures Grouped(ds + [d]) == Grouped(ds) + [Group(TldKey(d), [d])]
  {
    var gs := Grouped(ds);
    var key := TldKey(d);
    KeysSnoc(ds, d);
    var keys := Keys(ds + [d]);
    assert keys == Keys(ds) + [key];
    var gs' := Grouped(ds + [d]);
    forall i | 0 <= i < |gs| ensures gs'[i] == gs[i] {
      assert keys[i] == Keys(ds)[i] != key;
      MembersSnoc(ds, d, keys[i]);
    }
    KeysMembers(ds, key);
    MembersSnoc(ds, d, key);
    assert gs'[|gs|] == Group(key, [d]);
  }

  /** `groupDomainsByTld`: append every domain to the group of its key. */
  method GroupByTld(domains: seq<string>) returns (groups: seq<Group>)
    ensures groups == Grouped(domains)
  {
    groups := [];
    for i := 0 to |domains|
      invariant groups == Grouped(domains[..i])
    {
      var d := domains[i];
      var key := TldKey(d);
      ghost var prev := groups;
      var found := FindGroup(groups, key);
      if found.Some? {
        groups := groups[found.value := Group(key, groups[found.value].members + [d])];
      } else {
        groups := groups + [Group(key, [d])];
      }
      assert groups == AddDomain(prev, d);
      GroupedStep(domains[..i], d);
      assert domains[..i + 1] == domains[..i] + [d];
    }
    assert domains[..|domains|] == domains;
  }

  /** The key set of some groups. */
  function Tlds(gs: seq<Group>): set<string> {
    if gs == [] then {} else {gs[0].tld} + Tlds(gs[1..])
  }

  lemma {:induction false} TldsIndex(gs: seq<Group>, x: string)
    ensures x in Tlds(gs) <==> exists i :: 0 <= i < |gs| && gs[i].tld == x
  {
    if gs != [] {
      TldsIndex(gs[1..], x);
      if x in Tlds(gs[1..]) {
        var i :| 0 <= i < |gs[1..]| && gs[1..][i].tld == x;
        assert gs[i + 1].tld == x;
      }
      if exists i :: 0 <= i < |gs| && gs[i].tld == x {
        var i :| 0 <= i < |gs| && gs[i].tld == x;
        if i > 0 {
          assert gs[1..][i - 1].tld == x;
        }
      }
    }
  }

  lemma TldsTail(gs: seq<Group>)
    requires gs != []
    ensures Tlds(gs[1..]) <= Tlds(gs)
  {
  }

  /** Every member of the group is under the group's key. */
  predicate Keyed(g: Group) {
    forall m :: 0 <= m < |g.members| ==> TldKey(g.members[m]) == g.tld
  }

  /** Front to back, each group is keyed and its key does not come again. */
  predicate Chain(gs: seq<Group>) {
    gs == [] || (Keyed(gs[0]) && gs[0].tld !in Tlds(gs[1..]) && Chain(gs[1..]))
  }

  /** Groups as the grouping leaves them: none empty, keys distinct, every member under its own key. */
  predicate GroupsOk(gs: seq<Group>) {
    NonEmpty(gs) && Chain(gs)
  }

  /** The chain, read by index. */
  lemma {:induction false} ChainIndex(gs: seq<Group>)
    requires Chain(gs)
    ensures forall i, j :: 0 <= i < j < |gs| ==> gs[i].tld != gs[j].tld
    ensures forall i :: 0 <= i < |gs| ==> Keyed(gs[i])
  {
    if gs != [] {
      ChainIndex(gs[1..]);
      TldsIndex(gs[1..], gs[0].tld);
      forall i, j | 0 <= i < j < |gs| ensures gs[i].tld != gs[j].tld {
        if i == 0 {
          assert gs[1..][j - 1].tld == gs[j].tld;
        } else {
          assert gs[1..][i - 1] == gs[i] && gs[1..][j - 1] == gs[j];
        }
      }
      forall i | 0 < i < |gs| ensures Keyed(gs[i]) {
        assert gs[1..][i - 1] == gs[i];
      }
    }
  }

  /** And back: distinct keys and keyed groups make a chain. */
  lemma {:induction false} IndexChain(gs: seq<Group>)
    requires forall i, j :: 0 <= i < j < |gs| ==> gs[i].tld != gs[j].tld
    requires forall i :: 0 <= i < |gs| ==> Keyed(gs[i])
    ensures Chain(gs)
  {
    if gs != [] {
      IndexChain(gs[1..]);
      TldsIndex(gs[1..], gs[0].tld);
      forall i | 0 <= i < |gs[1..]| ensures gs[1..][i].tld != gs[0].tld {
        assert gs[1..][i] == gs[i + 1];
      }
    }
  }

  lemma GroupedOk(ds: seq<string>)
    ensures GroupsOk(Grouped(ds))
  {
    var gs := Grouped(ds);
    KeysDistinct(ds);
    forall i | 0 <= i < |gs| ensures gs[i].members != [] {
      KeysMembers(ds, gs[i].tld);
    }
    forall i | 0 <= i < |gs| ensures Keyed(gs[i]) {
      MembersKey(ds, gs[i].tld);
    }
    IndexChain(gs);
  }

  /** The domains of the group keyed `t`, or none. */
  function GroupOf(gs: seq<Group>, t: string): seq<string> {
    if gs == [] then []
    else if gs[0].tld == t then gs[0].members
    else GroupOf(gs[1..], t)
  }

  lemma {:induction false} GroupOfAbsent(gs: seq<Group>, t: string)
    requires t !in Tlds(gs)
    ensures GroupOf(gs, t) == []
  {
    if gs != [] {
      GroupOfAbsent(gs[1..], t);
    }
  }

  lemma {:induction false} GroupOfAt(gs: seq<Group>, i: nat)
    requires i < |gs| && forall a, b :: 0 <= a < b < |gs| ==> gs[a].tld != gs[b].tld
    ensures GroupOf(gs, gs[i].tld) == gs[i].members
  {
    if i > 0 {
      GroupOfAt(gs[1..], i - 1);
    }
  }

  /** Each input domain sits in the group of its own key, and in no other group. */
  lemma EachDomainInOneGroup(ds: seq<string>, d: string, i: nat)
    requires d in ds && i < |Grouped(ds)|
    ensures d in Grouped(ds)[i].members <==> Grouped(ds)[i].tld == TldKey(d)
  {
    var gs := Grouped(ds);
    MembersKey(ds, gs[i].tld);
    if gs[i].tld == TldKey(d) {
      var k :| 0 <= k < |ds| && ds[k] == d;
      assert ds == ds[..k] + [d] + ds[k + 1..];
      MembersAppend(ds[..k] + [d], ds[k + 1..], TldKey(d));
      MembersSnoc(ds[..k], d, TldKey(d));
    }
  }

  /** The group keyed `t` is exactly the input's domains with key `t`, in input order. */
  lemma GroupedGroupOf(ds: seq<string>, t: string)
    ensures GroupOf(Grouped(ds), t) == Members(ds, t)
  {
    var gs := Grouped(ds);
    GroupedOk(ds);
    ChainIndex(gs);
    KeysMembers(ds, t);
    if t in Keys(ds) {
      var i :| 0 <= i < |Keys(ds)| && Keys(ds)[i] == t;
      GroupOfAt(gs, i);
    } else {
      TldsIndex(gs, t);
      GroupOfAbsent(gs, t);
    }
  }

  // ---------------------------------------------------------------------------
  // Rounds

  /** The number of domains still waiting in the groups. */
  function Size(gs: seq<Group>): nat {
    if gs == [] then 0 else |gs[0].members| + Size(gs[1..])
  }

  lemma {:induction false} SizeAppend(a: seq<Group>, b: seq<Group>)
    ensures Size(a + b) == Size(a) + Size(b)
  {
    if a == [] {
      assert a + b == b;
    } else {
      assert (a + b)[1..] == a[1..] + b;
      SizeAppend(a[1..], b);
    }
  }

  /** No group is empty. */
  predicate NonEmpty(gs: seq<Group>) {
    forall i :: 0 <= i < |gs| ==> gs[i].members != []
  }

  /** What one round does: the batch it dispatches, and the groups left for later rounds. */
  datatype Split = Split(batch: seq<string>, rest: seq<Group>)

  function Min(a: nat, b: nat): nat {
    if a < b then a else b
  }

  /** A group after `array_shift` took its front domain: dropped when that was its last one. */
  function Kept(g: Group): seq<Group>
    requires g.members != []
  {
    if |g.members| == 1 then [] else [Group(g.tld, g.members[1..])]
  }

  /**
   * One round: shift the front domain off each group in order until `c` are taken, and
   * drop the groups this empties; the untouched groups keep their place behind.
   */
  function Round(gs: seq<Group>, c: nat): Split
    requires NonEmpty(gs)
  {
    if c == 0 || gs == [] then Split([], gs)
    else
      var after := Round(gs[1..], c - 1);
      Split([gs[0].members[0]] + after.batch, Kept(gs[0]) + after.rest)
  }

  /** A round dispatches `c` domains, or one per group when there are fewer; the rest stays. */
  lemma {:induction false} RoundSize(gs: seq<Group>, c: nat, r: Split)
    requires NonEmpty(gs) && r == Round(gs, c)
    ensures |r.batch| == Min(c, |gs|)
    ensures |r.batch| + Size(r.rest) == Size(gs)
  {
    if c != 0 && gs != [] {
      var g := gs[0];
      var after := Round(gs[1..], c - 1);
      RoundSize(gs[1..], c - 1, after);
      SizeAppend(Kept(g), after.rest);
      assert r.batch == [g.members[0]] + after.batch;
      assert r.rest == Kept(g) + after.rest;
    }
  }

  /** A round's `i`-th domain is the front domain of the `i`-th group. */
  lemma {:induction false} RoundFronts(gs: seq<Group>, c: nat, r: Split)
    requires NonEmpty(gs) && r == Round(gs, c)
    ensures |r.batch| <= |gs|
    ensures forall i :: 0 <= i < |r.batch| ==> r.batch[i] == gs[i].members[0]
  {
    if c != 0 && gs != [] {
      var g := gs[0];
      var after := Round(gs[1..], c - 1);
      RoundFronts(gs[1..], c - 1, after);
      assert r.batch == [g.members[0]] + after.batch;
      forall i | 0 < i < |r.batch| ensures r.batch[i] == gs[i].members[0] {
        assert r.batch[i] == after.batch[i - 1];
        assert gs[1..][i - 1] == gs[i];
      }
    }
  }

  /** A round leaves no empty group behind. */
  lemma {:induction false} RoundNonEmpty(gs: seq<Group>, c: nat, r: Split)
    requires NonEmpty(gs) && r == Round(gs, c)
    ensures NonEmpty(r.rest)
  {
    if c != 0 && gs != [] {
      var g := gs[0];
      var after := Round(gs[1..], c - 1);
      RoundNonEmpty(gs[1..], c - 1, after);
      assert r.rest == Kept(g) + after.rest;
      forall i | 0 <= i < |r.rest| ensures r.rest[i].members != [] {
        if i >= |Kept(g)| {
          assert r.rest[i] == after.rest[i - |Kept(g)|];
        }
      }
    }
  }

  /**
   * A round dispatches the front domain of each of the first `c` groups (all of them when
   * there are fewer), and everything it does not dispatch stays, in non-empty groups.
   */
  lemma RoundShape(gs: seq<Group>, c: nat, r: Split)
    requires NonEmpty(gs) && r == Round(gs, c)
    ensures |r.batch| == Min(c, |gs|)
    ensures forall i :: 0 <= i < |r.batch| ==> r.batch[i] == gs[i].members[0]
    ensures |r.batch| + Size(r.rest) == Size(gs)
    ensures NonEmpty(r.rest)
  {
    RoundSize(gs, c, r);
    RoundFronts(gs, c, r);
    RoundNonEmpty(gs, c, r);
  }

  /** The rounds from `gs` on: one batch per round until every group is exhausted. */
  function Schedule(gs: seq<Group>, c: nat): seq<seq<string>>
    requires c >= 1 && NonEmpty(gs)
    decreases Size(gs)
  {
    if gs == [] then []
    else
      var r := Round(gs, c);
      RoundShape(gs, c, r);
      [r.batch] + Schedule(r.rest, c)
  }

  /** The batches' domains in dispatch order. */
  function Flatten(bs: seq<seq<string>>): seq<string> {
    if bs == [] then [] else bs[0] + Flatten(bs[1..])
  }

  lemma {:induction false} FlattenAppend(a: seq<seq<string>>, b: seq<seq<string>>)
    ensures Flatten(a + b) == Flatten(a) + Flatten(b)
  {
    if a == [] {
      assert a + b == b;
    } else {
      assert (a + b)[1..] == a[1..] + b;
      FlattenAppend(a[1..], b);
    }
  }

  /** Its batch's domains have pairwise different keys, so the domains themselves differ. */
  predicate DistinctTlds(batch: seq<string>) {
    forall i, j :: 0 <= i < j < |batch| ==> TldKey(batch[i]) != TldKey(batch[j])
  }

  lemma GroupsOkTail(gs: seq<Group>)
    requires gs != [] && GroupsOk(gs)
    ensures gs[0].members != [] && Keyed(gs[0]) && gs[0].tld !in Tlds(gs[1..]) && GroupsOk(gs[1..])
  {
  }

  /** A group with its front shifted off is still keyed, under the same key. */
  lemma KeptKeyed(g: Group)
    requires g.members != [] && Keyed(g)
    ensures forall k :: 0 <= k < |Kept(g)| ==> Keyed(Kept(g)[k]) && Kept(g)[k].tld == g.tld
  {
    if |g.members| > 1 {
      var k := Group(g.tld, g.members[1..]);
      forall m | 0 <= m < |k.members| ensures TldKey(k.members[m]) == k.tld {
        assert k.members[m] == g.members[m + 1];
      }
    }
  }

  /** The key set of a group followed by others. */
  lemma TldsCons(k: Group, rest: seq<Group>)
    ensures Tlds([k] + rest) == {k.tld} + Tlds(rest)
  {
    assert ([k] + rest)[1..] == rest;
  }

  /** Putting a keyed group with a fresh key in front of a chain gives a chain. */
  lemma ChainCons(k: Group, rest: seq<Group>)
    requires Keyed(k) && k.tld !in Tlds(rest) && Chain(rest)
    ensures Chain([k] + rest)
  {
    assert ([k] + rest)[1..] == rest;
  }

  /** A round opens no new key. */
  lemma {:induction false} RoundKeys(gs: seq<Group>, c: nat, r: Split)
    requires NonEmpty(gs) && r == Round(gs, c)
    ensures Tlds(r.rest) <= Tlds(gs)
  {
    if c != 0 && gs != [] {
      var g := gs[0];
      var after := Round(gs[1..], c - 1);
      RoundKeys(gs[1..], c - 1, after);
      assert Tlds(gs) == {g.tld} + Tlds(gs[1..]);
      assert r.rest == Kept(g) + after.rest;
      if |g.members| > 1 {
        var k := Group(g.tld, g.members[1..]);
        assert r.rest == [k] + after.rest;
        TldsCons(k, after.rest);
      } else {
        assert r.rest == after.rest;
      }
    }
  }

  /** A round leaves a chain: the groups it keeps are still keyed, under keys still distinct. */
  lemma {:induction false} RoundChain(gs: seq<Group>, c: nat, r: Split)
    requires GroupsOk(gs) && r == Round(gs, c)
    ensures Chain(r.rest)
  {
    if c != 0 && gs != [] {
      var g := gs[0];
      var after := Round(gs[1..], c - 1);
      GroupsOkTail(gs);
      RoundChain(gs[1..], c - 1, after);
      assert r.rest == Kept(g) + after.rest;
      if |g.members| > 1 {
        var k := Group(g.tld, g.members[1..]);
        assert r.rest == [k] + after.rest;
        RoundKeys(gs[1..], c - 1, after);
        KeptKeyed(g);
        ChainCons(k, after.rest);
      } else {
        assert r.rest == after.rest;
      }
    }
  }

  /** A round keeps the groups well formed and opens no new key. */
  lemma RoundOk(gs: seq<Group>, c: nat, r: Split)
    requires GroupsOk(gs) && r == Round(gs, c)
    ensures GroupsOk(r.rest) && Tlds(r.rest) <= Tlds(gs)
  {
    RoundShape(gs, c, r);
    RoundKeys(gs, c, r);
    RoundChain(gs, c, r);
  }

  /** A round takes at most one domain per key, so no domain twice. */
  lemma RoundDistinct(gs: seq<Group>, c: nat, r: Split)
    requires GroupsOk(gs) && r == Round(gs, c)
    ensures DistinctTlds(r.batch)
  {
    RoundShape(gs, c, r);
    ChainIndex(gs);
    forall i, j | 0 <= i < j < |r.batch| ensures TldKey(r.batch[i]) != TldKey(r.batch[j]) {
      assert TldKey(gs[i].members[0]) == gs[i].tld;
      assert TldKey(gs[j].members[0]) == gs[j].tld;
    }
  }

  /** The step of `RoundGroupOf` when the front group is the one keyed `t`. */
  lemma RoundGroupOfOwn(g: Group, batch: seq<string>, rest: seq<Group>, others: seq<Group>)
    requires g.members != [] && Keyed(g) && g.tld !in Tlds(others)
    requires Members(batch, g.tld) + GroupOf(rest, g.tld) == GroupOf(others, g.tld)
    ensures Members([g.members[0]] + batch, g.tld) + GroupOf(Kept(g) + rest, g.tld) == GroupOf([g] + others, g.tld)
  {
    var t := g.tld;
    GroupOfAbsent(others, t);
    var taken := Members(batch, t);
    var left := GroupOf(rest, t);
    assert |taken| + |left| == 0;
    assert ([g.members[0]] + batch)[1..] == batch;
    assert TldKey(g.members[0]) == t;
    assert Members([g.members[0]] + batch, t) == [g.members[0]];
    assert GroupOf([g] + others, t) == g.members;
    if |g.members| == 1 {
      assert Kept(g) + rest == rest;
    } else {
      assert GroupOf(Kept(g) + rest, t) == g.members[1..];
    }
  }

  /** The step of `RoundGroupOf` when the front group has another key. */
  lemma RoundGroupOfOther(g: Group, batch: seq<string>, rest: seq<Group>, others: seq<Group>, t: string)
    requires g.members != [] && Keyed(g) && g.tld != t
    requires Members(batch, t) + GroupOf(rest, t) == GroupOf(others, t)
    ensures Members([g.members[0]] + batch, t) + GroupOf(Kept(g) + rest, t) == GroupOf([g] + others, t)
  {
    assert ([g.members[0]] + batch)[1..] == batch;
    assert TldKey(g.members[0]) == g.tld;
    assert Members([g.members[0]] + batch, t) == Members(batch, t);
    assert ([g] + others)[1..] == others;
    if |g.members| > 1 {
      assert (Kept(g) + rest)[1..] == rest;
    } else {
      assert Kept(g) + rest == rest;
    }
  }

  /** In one round, the domains of key `t` taken, followed by those left, are the domains of `t` before. */
  lemma {:induction false} RoundGroupOf(gs: seq<Group>, c: nat, t: string, r: Split)
    requires GroupsOk(gs) && r == Round(gs, c)
    ensures Members(r.batch, t) + GroupOf(r.rest, t) == GroupOf(gs, t)
  {
    if c != 0 && gs != [] {
      var after := Round(gs[1..], c - 1);
      GroupsOkTail(gs);
      RoundGroupOf(gs[1..], c - 1, t, after);
      if gs[0].tld == t {
        RoundGroupOfOwn(gs[0], after.batch, after.rest, gs[1..]);
      } else {
        RoundGroupOfOther(gs[0], after.batch, after.rest, gs[1..], t);
      }
      assert [gs[0]] + gs[1..] == gs;
    }
  }

  /** Unfolding `Schedule` once: the first round's batch, then the rounds from what it left. */
  lemma ScheduleCons(gs: seq<Group>, c: nat, r: Split)
    requires c >= 1 && gs != [] && GroupsOk(gs) && r == Round(gs, c)
    ensures GroupsOk(r.rest)
    ensures Schedule(gs, c) == [r.batch] + Schedule(r.rest, c)
    ensures Flatten(Schedule(gs, c)) == r.batch + Flatten(Schedule(r.rest, c))
  {
    RoundOk(gs, c, r);
    var s := Schedule(gs, c);
    assert s[1..] == Schedule(r.rest, c);
  }

  /**
   * Over all the rounds, the domains of each key are dispatched exactly in their group's
   * order: `array_shift` takes the group's front every time.
   */
  lemma {:induction false} ScheduleGroupOf(gs: seq<Group>, c: nat, t: string)
    requires c >= 1 && GroupsOk(gs)
    ensures Members(Flatten(Schedule(gs, c)), t) == GroupOf(gs, t)
    decreases Size(gs)
  {
    if gs != [] {
      var r := Round(gs, c);
      RoundShape(gs, c, r);
      ScheduleCons(gs, c, r);
      RoundGroupOf(gs, c, t, r);
      ScheduleGroupOf(r.rest, c, t);
      MembersAppend(r.batch, Flatten(Schedule(r.rest, c)), t);
    }
  }

  /** Every batch holds between 1 and `c` domains, no two with the same key (so no two equal). */
  lemma {:induction false} ScheduleBatches(gs: seq<Group>, c: nat)
    requires c >= 1 && GroupsOk(gs)
    ensures forall k :: 0 <= k < |Schedule(gs, c)| ==>
              1 <= |Schedule(gs, c)[k]| <= c && DistinctTlds(Schedule(gs, c)[k])
    decreases Size(gs)
  {
    if gs != [] {
      var r := Round(gs, c);
      RoundShape(gs, c, r);
      ScheduleCons(gs, c, r);
      RoundDistinct(gs, c, r);
      ScheduleBatches(r.rest, c);
      var s := Schedule(gs, c);
      forall k | 0 <= k < |s| ensures 1 <= |s[k]| <= c && DistinctTlds(s[k]) {
        if k > 0 {
          assert s[k] == Schedule(r.rest, c)[k - 1];
        }
      }
    }
  }

  /** A batch with distinct keys holds no domain twice. */
  lemma DistinctTldsDistinct(batch: seq<string>, i: nat, j: nat)
    requires DistinctTlds(batch) && i < j < |batch|
    ensures batch[i] != batch[j]
  {
  }

  /** The number of rounds is at most the number of domains; it is positive when there are any. */
  lemma {:induction false} ScheduleLength(gs: seq<Group>, c: nat)
    requires c >= 1 && GroupsOk(gs)
    ensures |Flatten(Schedule(gs, c))| == Size(gs)
    ensures |Schedule(gs, c)| <= Size(gs)
    ensures gs != [] <==> Schedule(gs, c) != []
    decreases Size(gs)
  {
    if gs != [] {
      var r := Round(gs, c);
      RoundShape(gs, c, r);
      ScheduleCons(gs, c, r);
      ScheduleLength(r.rest, c);
    }
  }

  /** Counting one domain: it occurs as often in a sequence as among that sequence's domains with its key. */
  lemma {:induction false} CountViaKey(s: seq<string>, x: string)
    ensures multiset(s)[x] == multiset(Members(s, TldKey(x)))[x]
  {
    if s != [] {
      var t := TldKey(x);
      var own := if TldKey(s[0]) == t then [s[0]] else [];
      CountViaKey(s[1..], x);
      assert s == [s[0]] + s[1..];
      assert multiset(s) == multiset{s[0]} + multiset(s[1..]);
      assert multiset(Members(s, t)) == multiset(own) + multiset(Members(s[1..], t));
      assert s[0] == x ==> own == [x];
    }
  }

  /**
   * The dispatched domains, over all rounds, are the input's domains: each key's domains in
   * input order, and as a whole a permutation of the input.
   */
  lemma DispatchKeepsInput(ds: seq<string>, c: nat)
    requires c >= 1
    ensures GroupsOk(Grouped(ds))
    ensures forall t :: Members(Flatten(Schedule(Grouped(ds), c)), t) == Members(ds, t)
    ensures multiset(Flatten(Schedule(Grouped(ds), c))) == multiset(ds)
  {
    GroupedOk(ds);
    var out := Flatten(Schedule(Grouped(ds), c));
    forall t ensures Members(out, t) == Members(ds, t) {
      ScheduleGroupOf(Grouped(ds), c, t);
      GroupedGroupOf(ds, t);
    }
    forall x ensures multiset(out)[x] == multiset(ds)[x] {
      CountViaKey(out, x);
      CountViaKey(ds, x);
    }
  }

  /** The group sizes add up to the number of input domains. */
  lemma GroupSizes(ds: seq<string>)
    ensures Size(Grouped(ds)) == |ds|
  {
    DispatchKeepsInput(ds, 1);
    ScheduleLength(Grouped(ds), 1);
    assert |multiset(Flatten(Schedule(Grouped(ds), 1)))| == |multiset(ds)|;
  }

  // ---------------------------------------------------------------------------
  // `runDomainCheck`

  /** `check` applied to each domain, in order. */
  function Checked(client: Client, ds: seq<string>): (rs: seq<DomainCheckResult>)
    ensures |rs| == |ds| && forall i :: 0 <= i < |ds| ==> rs[i].domain == ds[i]
  {
    seq(|ds|, i requires 0 <= i < |ds| => Check(client, ds[i]))
  }

  lemma CheckedAppend(client: Client, a: seq<string>, b: seq<string>)
    ensures Checked(client, a + b) == Checked(client, a) + Checked(client, b)
  {
    var l := Checked(client, a + b);
    var r := Checked(client, a) + Checked(client, b);
    forall i | 0 <= i < |l| ensures l[i] == r[i] {
      if i < |a| {
        assert (a + b)[i] == a[i];
      } else {
        assert (a + b)[i] == b[i - |a|];
      }
    }
  }

  /** The round that the groups from position `j` on get, once `j` domains are taken. */
  function RoundFrom(gs: seq<Group>, c: nat, j: nat): Split
    requires NonEmpty(gs) && j <= |gs| && j <= c
  {
    assert NonEmpty(gs[j..]) by {
      forall i | 0 <= i < |gs[j..]| ensures gs[j..][i].members != [] {
        assert gs[j..][i] == gs[j + i];
      }
    }
    Round(gs[j..], c - j)
  }

  lemma Regroup<T>(a: seq<T>, x: seq<T>, b: seq<T>)
    ensures a + (x + b) == (a + x) + b
  {
  }

  /** Taking the front of group `j` moves one step through the round. */
  lemma TakeStep(gs: seq<Group>, c: nat, j: nat, batch: seq<string>, kept: seq<Group>)
    requires NonEmpty(gs) && j < |gs| && j < c
    requires Round(gs, c) == Split(batch + RoundFrom(gs, c, j).batch, kept + RoundFrom(gs, c, j).rest)
    ensures Round(gs, c) == Split((batch + [gs[j].members[0]]) + RoundFrom(gs, c, j + 1).batch,
                                  (kept + Kept(gs[j])) + RoundFrom(gs, c, j + 1).rest)
  {
    var here, next := RoundFrom(gs, c, j), RoundFrom(gs, c, j + 1);
    assert gs[j..][1..] == gs[j + 1..];
    assert here == Split([gs[j].members[0]] + next.batch, Kept(gs[j]) + next.rest);
    Regroup(batch, [gs[j].members[0]], next.batch);
    Regroup(kept, Kept(gs[j]), next.rest);
  }

  /** Where the round stops, nothing more is taken and the groups from `j` on stay as they are. */
  lemma TakeStop(gs: seq<Group>, c: nat, j: nat)
    requires NonEmpty(gs) && j <= |gs| && j <= c && (j == |gs| || j == c)
    ensures RoundFrom(gs, c, j) == Split([], gs[j..])
  {
  }

  /**
   * One pass of the `foreach` over the groups: shift the front domain of each group into the
   * batch until it holds `c`, keeping what is left of each group and dropping the emptied ones.
   */
  method TakeRound(groups: seq<Group>, c: nat) returns (batch: seq<string>, rest: seq<Group>)
    requires NonEmpty(groups)
    ensures Split(batch, rest) == Round(groups, c)
  {
    batch := [];
    var kept: seq<Group> := [];
    var j := 0;
    assert groups[0..] == groups;
    while j < |groups|
      invariant 0 <= j <= |groups| && j <= c && |batch| == j
      invariant Round(groups, c) == Split(batch + RoundFrom(groups, c, j).batch, kept + RoundFrom(groups, c, j).rest)
    {
      if |batch| >= c {
        break;
      }
      var g := groups[j];
      var front := g.members[0];
      var remaining := g.members[1..];
      TakeStep(groups, c, j, batch, kept);
      batch := batch + [front];
      if remaining != [] {
        kept := kept + [Group(g.tld, remaining)];
      } else {
        assert kept == kept + Kept(g);
      }
      j := j + 1;
    }
    TakeStop(groups, c, j);
    rest := kept + groups[j..];
  }

  /** The `check` calls of one batch, their results collected in batch order. */
  method CheckBatch(client: Client, batch: seq<string>) returns (rs: seq<DomainCheckResult>)
    ensures rs == Checked(client, batch)
  {
    rs := [];
    var k := 0;
    while k < |batch|
      invariant 0 <= k <= |batch|
      invariant rs == Checked(client, batch[..k])
    {
      CheckedAppend(client, batch[..k], [batch[k]]);
      assert batch[..k + 1] == batch[..k] + [batch[k]];
      rs := rs + [Check(client, batch[k])];
      k := k + 1;
    }
    assert batch[..k] == batch;
  }

  /** Checking the domains of one more batch extends the results by that batch's results. */
  lemma CheckedSnoc(client: Client, batches: seq<seq<string>>, batch: seq<string>)
    ensures Checked(client, Flatten(batches + [batch])) == Checked(client, Flatten(batches)) + Checked(client, batch)
  {
    FlattenAppend(batches, [batch]);
    assert Flatten([batch]) == batch + Flatten([]);
    CheckedAppend(client, Flatten(batches), batch);
  }

  /** After one more round, what is left to schedule is what the round left. */
  lemma ScheduleStep(gs: seq<Group>, c: nat, r: Split, done: seq<seq<string>>)
    requires c >= 1 && gs != [] && GroupsOk(gs) && r == Round(gs, c)
    ensures GroupsOk(r.rest) && Size(r.rest) < Size(gs)
    ensures (done + [r.batch]) + Schedule(r.rest, c) == done + Schedule(gs, c)
  {
    RoundShape(gs, c, r);
    ScheduleCons(gs, c, r);
  }

  /**
   * The grouping and the rounds of `runDomainCheck`. `batches` records what each round
   * dispatched and `delays` counts the pauses between rounds; within a round the results
   * are collected in batch order.
   */
  method RunDomainCheck(client: Client, domains: seq<string>, concurrency: nat)
    returns (results: seq<DomainCheckResult>, batches: seq<seq<string>>, delays: nat)
    requires concurrency >= 1
    ensures GroupsOk(Grouped(domains))
    ensures batches == Schedule(Grouped(domains), concurrency)
    ensures results == Checked(client, Flatten(batches))
    ensures delays == if batches == [] then 0 else |batches| - 1
  {
    var groups := GroupByTld(domains);
    GroupedOk(domains);
    results := [];
    batches := [];
    delays := 0;
    while groups != []
      invariant GroupsOk(groups)
      invariant batches + Schedule(groups, concurrency) == Schedule(Grouped(domains), concurrency)
      invariant results == Checked(client, Flatten(batches))
      invariant delays == if batches == [] then 0 else if groups == [] then |batches| - 1 else |batches|
      decreases Size(groups)
    {
      var batch, rest := TakeRound(groups, concurrency);
      ScheduleStep(groups, concurrency, Split(batch, rest), batches);
      var rs := CheckBatch(client, batch);
      CheckedSnoc(client, batches, batch);
      results := results + rs;
      batches := batches + [batch];
      groups := rest;
      if groups != [] {
        delays := delays + 1;
      }
    }
  }

  /** The domains the results are about, in order. */
  function ResultDomains(rs: seq<DomainCheckResult>): (ds: seq<string>)
    ensures |ds| == |rs| && forall i :: 0 <= i < |rs| ==> ds[i] == rs[i].domain
  {
    seq(|rs|, i requires 0 <= i < |rs| => rs[i].domain)
  }

  /** One result per input domain: the results' domains are the input's, each as often. */
  lemma OneResultPerDomain(client: Client, domains: seq<string>, c: nat)
    requires c >= 1
    ensures GroupsOk(Grouped(domains))
    ensures multiset(ResultDomains(Checked(client, Flatten(Schedule(Grouped(domains), c))))) == multiset(domains)
  {
    DispatchKeepsInput(domains, c);
    var out := Flatten(Schedule(Grouped(domains), c));
    assert ResultDomains(Checked(client, out)) == out;
  }
}
