/** The generation resolver of the health overview page
    (client/app/dashboard/health-overview/page.tsx, `getGeneration` and the
    `memberMap` it walks). A member's generation is one more than the larger of
    its parents' generations; a parent that is not set, or whose id is not in
    the map, counts 0; a `visited` set stops the walk on cyclic links. */
module Generation {
  import opened Wrappers
  import opened JsStrings
  import opened HealthMember

  type MemberMap = map<string, Member>

  function Max(a: int, b: int): int {
    if a < b then b else a
  }

  /** Every entry is stored under its own id, as `memberMap.set(m._id, m)` does. */
  ghost predicate WellKeyed(mm: MemberMap) {
    forall k :: k in mm ==> mm[k].id == k
  }

  /** The ids carried by a list of members. */
  function Ids(members: seq<Member>): set<string> {
    set i | 0 <= i < |members| :: members[i].id
  }

  /** `members.forEach((m) => memberMap.set(m._id, m))`: every id becomes a key
      that holds a member carrying it. */
  function BuildMemberMap(members: seq<Member>): (mm: MemberMap)
    ensures WellKeyed(mm)
    ensures mm.Keys == Ids(members)
  {
    if members == [] then map[]
    else
      var last := members[|members| - 1];
      var front := members[..|members| - 1];
      assert Ids(members) == Ids(front) + {last.id} by {
        forall x | x in Ids(members) ensures x in Ids(front) + {last.id} {
          var i :| 0 <= i < |members| && members[i].id == x;
          if i < |front| { assert front[i].id == x; }
        }
        forall x | x in Ids(front) ensures x in Ids(members) {
          var i :| 0 <= i < |front| && front[i].id == x;
          assert members[i].id == x;
        }
      }
      BuildMemberMap(front)[last.id := last]
  }

  /** A repeated id keeps the last member that carries it; an id carried once maps to that member. */
  lemma {:induction false} BuildMemberMapLastWins(members: seq<Member>, i: nat)
    requires i < |members|
    requires forall j :: i < j < |members| ==> members[j].id != members[i].id
    ensures BuildMemberMap(members)[members[i].id] == members[i]
  {
    var front := members[..|members| - 1];
    if i < |members| - 1 {
      BuildMemberMapLastWins(front, i);
    }
  }

  /** `id && memberMap.has(id)`: the link is set, not empty, and names a member of the map. */
  predicate Resolves(mm: MemberMap, link: Option<string>) {
    Truthy(link) && link.value in mm
  }

  /** Adding the current id, and anything else, to the visited set strictly
      shrinks the set of ids still to visit. */
  lemma VisitShrinks(keys: set<string>, x: string, visited: set<string>, later: set<string>)
    requires x !in visited && visited + {x} <= later
    ensures |keys - later| + 1 <= |(keys + {x}) - visited|
  {
    var v1 := visited + {x};
    assert (keys + {x}) - visited == (keys - v1) + {x};
    assert keys - v1 == (keys - later) + ((keys - v1) - (keys - later));
  }

  /** `getGeneration(member, visited)`, as written: `visited` is one set shared by
      the whole walk, so the mother's branch sees every id the father's branch
      added. Returns the generation and the set as the walk leaves it. */
  function Walk(mm: MemberMap, m: Member, visited: set<string>): (r: (int, set<string>))
    requires WellKeyed(mm)
    ensures visited + {m.id} <= r.1 && 1 <= r.0
    decreases |(mm.Keys + {m.id}) - visited|, 1
  {
    if m.id in visited then (1, visited)
    else
      var v1 := visited + {m.id};
      VisitShrinks(mm.Keys, m.id, visited, v1);
      var father := LinkStep(mm, m.fatherId, v1);
      VisitShrinks(mm.Keys, m.id, visited, father.1);
      var mother := LinkStep(mm, m.motherId, father.1);
      (1 + Max(father.0, mother.0), mother.1)
  }

  /** The walk of the member a link names, continuing from `visited`;
      `(0, visited)` when the link does not resolve. */
  function LinkStep(mm: MemberMap, link: Option<string>, visited: set<string>): (r: (int, set<string>))
    requires WellKeyed(mm)
    ensures visited <= r.1 && 0 <= r.0
    decreases |mm.Keys - visited|, 2
  {
    if Resolves(mm, link) then
      assert mm.Keys + {mm[link.value].id} == mm.Keys;
      Walk(mm, mm[link.value], visited)
    else (0, visited)
  }

  lemma WalkStep(mm: MemberMap, m: Member, visited: set<string>)
    requires WellKeyed(mm) && m.id !in visited
    ensures var father := LinkStep(mm, m.fatherId, visited + {m.id});
            var mother := LinkStep(mm, m.motherId, father.1);
            Walk(mm, m, visited) == (1 + Max(father.0, mother.0), mother.1)
  {
  }

  /** The walk adds only map keys and the starting id to `visited`, and every
      id it adds counts for at most one generation. */
  lemma {:induction false} WalkBounds(mm: MemberMap, m: Member, visited: set<string>)
    requires WellKeyed(mm)
    ensures Walk(mm, m, visited).1 <= visited + {m.id} + mm.Keys
    ensures Walk(mm, m, visited).0 <= 1 + |(mm.Keys + {m.id}) - visited|
    decreases |(mm.Keys + {m.id}) - visited|, 1
  {
    if m.id !in visited {
      var v1 := visited + {m.id};
      VisitShrinks(mm.Keys, m.id, visited, v1);
      LinkStepBounds(mm, m.fatherId, v1);
      var father := LinkStep(mm, m.fatherId, v1);
      VisitShrinks(mm.Keys, m.id, visited, father.1);
      LinkStepBounds(mm, m.motherId, father.1);
    }
  }

  lemma {:induction false} LinkStepBounds(mm: MemberMap, link: Option<string>, visited: set<string>)
    requires WellKeyed(mm)
    ensures LinkStep(mm, link, visited).1 <= visited + mm.Keys
    ensures LinkStep(mm, link, visited).0 <= 1 + |mm.Keys - visited|
    decreases |mm.Keys - visited|, 2
  {
    if Resolves(mm, link) {
      assert mm.Keys + {mm[link.value].id} == mm.Keys;
      WalkBounds(mm, mm[link.value], visited);
    }
  }

  /** `getGeneration(m)`: a walk started with an empty `visited` set. The result is
      at least 1 and at most one more than the number of members in the map,
      whatever the links, cycles included. */
  function GetGeneration(mm: MemberMap, m: Member): (g: int)
    requires WellKeyed(mm)
    ensures 1 <= g <= 1 + |mm.Keys + {m.id}|
    ensures m.id in mm ==> g <= 1 + |mm|
  {
    WalkBounds(mm, m, {});
    assert m.id in mm ==> mm.Keys + {m.id} == mm.Keys;
    Walk(mm, m, {}).0
  }

  /** A member none of whose parent links resolves gets 1: an unset or dangling
      parent contributes 0, and nothing is walked. */
  lemma RootIsGenerationOne(mm: MemberMap, m: Member, visited: set<string>)
    requires WellKeyed(mm)
    requires !Resolves(mm, m.fatherId) && !Resolves(mm, m.motherId)
    ensures Walk(mm, m, visited).0 == 1
  {
  }

  /** A member not yet visited with no resolvable parent adds only itself to `visited`. */
  lemma RootWalk(mm: MemberMap, m: Member, visited: set<string>)
    requires WellKeyed(mm) && m.id !in visited
    requires !Resolves(mm, m.fatherId) && !Resolves(mm, m.motherId)
    ensures Walk(mm, m, visited) == (1, visited + {m.id})
  {
  }

  /** One direct step of the walk: with the mother missing or dangling, the
      member is exactly one generation below its father's walk, which continues
      from `visited` plus the member. */
  lemma FatherOnlyWalk(mm: MemberMap, m: Member, visited: set<string>)
    requires WellKeyed(mm) && m.id !in visited
    requires Resolves(mm, m.fatherId) && !Resolves(mm, m.motherId)
    ensures var father := Walk(mm, mm[m.fatherId.value], visited + {m.id});
            Walk(mm, m, visited) == (1 + father.0, father.1)
  {
  }

  /** The same step with only the mother resolvable. */
  lemma MotherOnlyWalk(mm: MemberMap, m: Member, visited: set<string>)
    requires WellKeyed(mm) && m.id !in visited
    requires !Resolves(mm, m.fatherId) && Resolves(mm, m.motherId)
    ensures var mother := Walk(mm, mm[m.motherId.value], visited + {m.id});
            Walk(mm, m, visited) == (1 + mother.0, mother.1)
  {
  }

  /** Two members naming each other as father, with no mothers: the walk
      stops at the first repeated id, and `x` gets generation 3. */
  lemma MutualFathers(mm: MemberMap, x: string, y: string)
    requires WellKeyed(mm) && x in mm && y in mm && x != y
    requires mm[x].fatherId == Some(y) && mm[y].fatherId == Some(x)
    requires mm[x].motherId == None && mm[y].motherId == None
    requires x != "" && y != ""
    ensures GetGeneration(mm, mm[x]) == 3
  {
    assert Resolves(mm, mm[x].fatherId) && Resolves(mm, mm[y].fatherId);
    FatherOnlyWalk(mm, mm[x], {});
    assert {} + {x} == {x};
    FatherOnlyWalk(mm, mm[y], {x});
    assert x in {x} + {y};
  }

  // ---------------------------------------------------------------------------
  // Acyclic ancestry
  // ---------------------------------------------------------------------------

  /** The parent links of the map are acyclic, witnessed by a rank that every
      resolvable parent has strictly below its child. */
  ghost predicate Ranked(mm: MemberMap, rank: map<string, nat>) {
    && mm.Keys <= rank.Keys
    && forall k :: k in mm ==>
         && (Resolves(mm, mm[k].fatherId) ==> rank[mm[k].fatherId.value] < rank[k])
         && (Resolves(mm, mm[k].motherId) ==> rank[mm[k].motherId.value] < rank[k])
  }

  /** The ids of a member and of all its resolvable ancestors. */
  ghost function Ancestry(mm: MemberMap, rank: map<string, nat>, id: string): (a: set<string>)
    requires Ranked(mm, rank) && id in mm
    ensures id in a
    ensures forall x :: x in a ==> x in mm && rank[x] <= rank[id]
    decreases rank[id]
  {
    var m := mm[id];
    {id}
    + (if Resolves(mm, m.fatherId) then Ancestry(mm, rank, m.fatherId.value) else {})
    + (if Resolves(mm, m.motherId) then Ancestry(mm, rank, m.motherId.value) else {})
  }

  /** The father's and the mother's ancestries of `k`, when both resolve, are disjoint. */
  ghost predicate DisjointLines(mm: MemberMap, rank: map<string, nat>, k: string)
    requires Ranked(mm, rank) && k in mm
  {
    Resolves(mm, mm[k].fatherId) && Resolves(mm, mm[k].motherId) ==>
      Ancestry(mm, rank, mm[k].fatherId.value) !! Ancestry(mm, rank, mm[k].motherId.value)
  }

  /** No ancestor is reachable along two different lines: every member's
      father's and mother's ancestries are disjoint. */
  ghost predicate TreeShaped(mm: MemberMap, rank: map<string, nat>)
    requires Ranked(mm, rank)
  {
    forall k :: k in mm ==> DisjointLines(mm, rank, k)
  }

  // ---------------------------------------------------------------------------
  // The path-scoped resolver
  // ---------------------------------------------------------------------------

  /** The generation with a cycle guard scoped to the current path: each parent
      branch gets its own copy of the ids above it, as the tree view's
      `findGenerationDepth` does with `new Set(visited)`. */
  function PathWalk(mm: MemberMap, m: Member, path: set<string>): int
    requires WellKeyed(mm)
    decreases |(mm.Keys + {m.id}) - path|, 1
  {
    if m.id in path then 1
    else
      var p1 := path + {m.id};
      VisitShrinks(mm.Keys, m.id, path, p1);
      1 + Max(LinkWalk(mm, m.fatherId, p1), LinkWalk(mm, m.motherId, p1))
  }

  /** The path-scoped walk of the member a link names, 0 when the link does not resolve. */
  function LinkWalk(mm: MemberMap, link: Option<string>, path: set<string>): int
    requires WellKeyed(mm)
    decreases |mm.Keys - path|, 2
  {
    if Resolves(mm, link) then
      assert mm.Keys + {mm[link.value].id} == mm.Keys;
      PathWalk(mm, mm[link.value], path)
    else 0
  }

  /** Every id off the path counts for at most one generation, and the walk
      counts at least the member itself. */
  lemma {:induction false} PathWalkBounds(mm: MemberMap, m: Member, path: set<string>)
    requires WellKeyed(mm)
    ensures 1 <= PathWalk(mm, m, path) <= 1 + |(mm.Keys + {m.id}) - path|
    decreases |(mm.Keys + {m.id}) - path|, 1
  {
    if m.id !in path {
      var p1 := path + {m.id};
      VisitShrinks(mm.Keys, m.id, path, p1);
      LinkWalkBounds(mm, m.fatherId, p1);
      LinkWalkBounds(mm, m.motherId, p1);
    }
  }

  lemma {:induction false} LinkWalkBounds(mm: MemberMap, link: Option<string>, path: set<string>)
    requires WellKeyed(mm)
    ensures 0 <= LinkWalk(mm, link, path) <= 1 + |mm.Keys - path|
    decreases |mm.Keys - path|, 2
  {
    if Resolves(mm, link) {
      assert mm.Keys + {mm[link.value].id} == mm.Keys;
      PathWalkBounds(mm, mm[link.value], path);
    }
  }

  /** The generation the page evidently intends: a path-scoped walk from an empty path. */
  function PathGeneration(mm: MemberMap, m: Member): (g: int)
    requires WellKeyed(mm)
    ensures 1 <= g <= 1 + |mm.Keys + {m.id}|
  {
    PathWalkBounds(mm, m, {});
    PathWalk(mm, m, {})
  }

  /** The generation a resolvable parent link contributes, 0 for one that does not resolve. */
  function ParentGeneration(mm: MemberMap, link: Option<string>): int
    requires WellKeyed(mm)
  {
    if Resolves(mm, link) then PathGeneration(mm, mm[link.value]) else 0
  }

  lemma PathWalkStep(mm: MemberMap, y: Member, path: set<string>)
    requires WellKeyed(mm) && y.id !in path
    ensures PathWalk(mm, y, path) ==
            1 + Max(LinkWalk(mm, y.fatherId, path + {y.id}), LinkWalk(mm, y.motherId, path + {y.id}))
  {
  }

  /** On acyclic ancestry, a path that holds only ids ranked above `y` cannot
      cut `y`'s walk short: the result is the same as from an empty path. */
  lemma {:induction false} PathWalkIgnoresDescendants(mm: MemberMap, rank: map<string, nat>,
                                                      y: Member, path: set<string>)
    requires WellKeyed(mm) && Ranked(mm, rank) && y.id in mm && mm[y.id] == y
    requires forall q :: q in path ==> q in rank && rank[q] > rank[y.id]
    ensures PathWalk(mm, y, path) == PathWalk(mm, y, {})
    decreases rank[y.id], 1
  {
    assert {} + {y.id} == {y.id};
    LinkWalkIgnoresDescendants(mm, rank, y, y.fatherId, path);
    LinkWalkIgnoresDescendants(mm, rank, y, y.motherId, path);
  }

  lemma {:induction false} LinkWalkIgnoresDescendants(mm: MemberMap, rank: map<string, nat>,
                                                      y: Member, link: Option<string>, path: set<string>)
    requires WellKeyed(mm) && Ranked(mm, rank) && y.id in mm && mm[y.id] == y
    requires link == y.fatherId || link == y.motherId
    requires forall q :: q in path ==> q in rank && rank[q] > rank[y.id]
    ensures LinkWalk(mm, link, path + {y.id}) == LinkWalk(mm, link, {y.id})
    decreases rank[y.id], 0
  {
    if Resolves(mm, link) {
      var p := mm[link.value];
      assert rank[p.id] < rank[y.id];
      PathWalkIgnoresDescendants(mm, rank, p, path + {y.id});
      PathWalkIgnoresDescendants(mm, rank, p, {y.id});
    }
  }

  /** On acyclic ancestry the corrected resolver gives every member one more
      than the larger of its parents' generations, an unresolvable parent
      counting 0; so a member always lies strictly below each resolvable parent. */
  lemma GenerationExceedsParents(mm: MemberMap, rank: map<string, nat>, m: Member)
    requires WellKeyed(mm) && Ranked(mm, rank) && m.id in mm && mm[m.id] == m
    ensures PathGeneration(mm, m) ==
            1 + Max(ParentGeneration(mm, m.fatherId), ParentGeneration(mm, m.motherId))
    ensures Resolves(mm, m.fatherId) ==> PathGeneration(mm, m) > PathGeneration(mm, mm[m.fatherId.value])
    ensures Resolves(mm, m.motherId) ==> PathGeneration(mm, m) > PathGeneration(mm, mm[m.motherId.value])
  {
    PathWalkStep(mm, m, {});
    assert {} + {m.id} == {m.id};
    if Resolves(mm, m.fatherId) {
      PathWalkIgnoresDescendants(mm, rank, mm[m.fatherId.value], {m.id});
    }
    if Resolves(mm, m.motherId) {
      PathWalkIgnoresDescendants(mm, rank, mm[m.motherId.value], {m.id});
    }
  }

  /** A resolvable parent's ancestry lies inside the child's and does not hold the child. */
  lemma ParentAncestry(mm: MemberMap, rank: map<string, nat>, x: Member, link: Option<string>)
    requires WellKeyed(mm) && Ranked(mm, rank) && x.id in mm && mm[x.id] == x
    requires link == x.fatherId || link == x.motherId
    requires Resolves(mm, link)
    ensures Ancestry(mm, rank, link.value) <= Ancestry(mm, rank, x.id)
    ensures x.id !in Ancestry(mm, rank, link.value)
  {
    assert rank[link.value] < rank[x.id];
  }

  /** Ancestry unfolded one step. */
  lemma AncestryStep(mm: MemberMap, rank: map<string, nat>, x: Member)
    requires WellKeyed(mm) && Ranked(mm, rank) && x.id in mm && mm[x.id] == x
    ensures Ancestry(mm, rank, x.id) ==
            {x.id} + LinkAncestry(mm, rank, x.fatherId) + LinkAncestry(mm, rank, x.motherId)
  {
  }

  /** The ancestry of the member a link names, empty when the link does not resolve. */
  ghost function LinkAncestry(mm: MemberMap, rank: map<string, nat>, link: Option<string>): set<string>
    requires Ranked(mm, rank)
  {
    if Resolves(mm, link) then Ancestry(mm, rank, link.value) else {}
  }

  /** One step of the walk put together from what each parent's branch returns. */
  lemma CombineWalk(mm: MemberMap, x: Member, visited: set<string>,
                    fatherGen: int, fatherIds: set<string>, motherGen: int, motherIds: set<string>)
    requires WellKeyed(mm) && x.id !in visited
    requires LinkStep(mm, x.fatherId, visited + {x.id}) == (fatherGen, visited + {x.id} + fatherIds)
    requires LinkStep(mm, x.motherId, visited + {x.id} + fatherIds) ==
             (motherGen, visited + {x.id} + fatherIds + motherIds)
    ensures Walk(mm, x, visited) == (1 + Max(fatherGen, motherGen), visited + ({x.id} + fatherIds + motherIds))
  {
    WalkStep(mm, x, visited);
    var ids := visited + {x.id} + fatherIds + motherIds;
    assert ids == visited + ({x.id} + fatherIds + motherIds);
    assert Walk(mm, x, visited) == (1 + Max(fatherGen, motherGen), ids);
  }

  /** When no ancestor is reachable twice, the shared `visited` set never cuts a
      branch short: the walk as written returns the path-scoped generation and
      leaves `visited` holding exactly the ancestry it crossed. */
  lemma {:induction false} WalkAgreesOnTrees(mm: MemberMap, rank: map<string, nat>,
                                             x: Member, visited: set<string>)
    requires WellKeyed(mm) && Ranked(mm, rank) && TreeShaped(mm, rank)
    requires x.id in mm && mm[x.id] == x
    requires visited !! Ancestry(mm, rank, x.id)
    ensures Walk(mm, x, visited) == (PathGeneration(mm, x), visited + Ancestry(mm, rank, x.id))
    decreases rank[x.id], 1
  {
    var v1 := visited + {x.id};
    var fa, ma := LinkAncestry(mm, rank, x.fatherId), LinkAncestry(mm, rank, x.motherId);
    AncestryStep(mm, rank, x);
    GenerationExceedsParents(mm, rank, x);
    if Resolves(mm, x.fatherId) {
      ParentAncestry(mm, rank, x, x.fatherId);
    }
    if Resolves(mm, x.motherId) {
      ParentAncestry(mm, rank, x, x.motherId);
    }
    assert DisjointLines(mm, rank, x.id);
    assert fa !! ma;
    LinkStepAgreesOnTrees(mm, rank, x, x.fatherId, v1);
    LinkStepAgreesOnTrees(mm, rank, x, x.motherId, v1 + fa);
    CombineWalk(mm, x, visited, ParentGeneration(mm, x.fatherId), fa, ParentGeneration(mm, x.motherId), ma);
    var w := Walk(mm, x, visited);
    assert w.0 == 1 + Max(ParentGeneration(mm, x.fatherId), ParentGeneration(mm, x.motherId));
    assert w.1 == visited + Ancestry(mm, rank, x.id);
    assert w.0 == PathGeneration(mm, x);
    assert w == (w.0, w.1);
  }

  /** The same for the branch of one parent link of `x`. */
  lemma {:induction false} LinkStepAgreesOnTrees(mm: MemberMap, rank: map<string, nat>,
                                                 x: Member, link: Option<string>, visited: set<string>)
    requires WellKeyed(mm) && Ranked(mm, rank) && TreeShaped(mm, rank)
    requires x.id in mm && mm[x.id] == x && (link == x.fatherId || link == x.motherId)
    requires visited !! LinkAncestry(mm, rank, link)
    ensures LinkStep(mm, link, visited) == (ParentGeneration(mm, link), visited + LinkAncestry(mm, rank, link))
    decreases rank[x.id], 0
  {
    if Resolves(mm, link) {
      var p := mm[link.value];
      assert rank[p.id] < rank[x.id];
      WalkAgreesOnTrees(mm, rank, p, visited);
    } else {
      assert visited + {} == visited;
    }
  }

  /** The walk as written on tree-shaped ancestry: one more than the larger parent
      generation, hence strictly greater than each resolvable parent's. */
  lemma AsWrittenOnTrees(mm: MemberMap, rank: map<string, nat>, m: Member)
    requires WellKeyed(mm) && Ranked(mm, rank) && TreeShaped(mm, rank)
    requires m.id in mm && mm[m.id] == m
    ensures GetGeneration(mm, m) == PathGeneration(mm, m)
    ensures GetGeneration(mm, m) ==
            1 + Max(ParentGeneration(mm, m.fatherId), ParentGeneration(mm, m.motherId))
    ensures Resolves(mm, m.fatherId) ==> GetGeneration(mm, m) > GetGeneration(mm, mm[m.fatherId.value])
    ensures Resolves(mm, m.motherId) ==> GetGeneration(mm, m) > GetGeneration(mm, mm[m.motherId.value])
  {
    WalkAgreesOnTrees(mm, rank, m, {});
    GenerationExceedsParents(mm, rank, m);
    if Resolves(mm, m.fatherId) {
      WalkAgreesOnTrees(mm, rank, mm[m.fatherId.value], {});
    }
    if Resolves(mm, m.motherId) {
      WalkAgreesOnTrees(mm, rank, mm[m.motherId.value], {});
    }
  }

  // ---------------------------------------------------------------------------
  // The shared visited set on a pedigree with a repeated ancestor
  // ---------------------------------------------------------------------------

  function Person(id: string, father: Option<string>, mother: Option<string>): Member {
    Member(id, id, None, father, mother, None, None, 1, [], None, [])
  }

  /** The pedigree of the finding: z is a root, a is z's son, c is a's
      daughter, and d has a as father and c as mother, so a is d's ancestor
      along both lines. */
  function Collapse(): (mm: MemberMap)
    ensures WellKeyed(mm) && mm.Keys == {"z", "a", "c", "d"}
    ensures mm["z"] == Person("z", None, None) && mm["a"] == Person("a", Some("z"), None)
    ensures mm["c"] == Person("c", None, Some("a")) && mm["d"] == Person("d", Some("a"), Some("c"))
  {
    DistinctIds();
    map["z" := Person("z", None, None), "a" := Person("a", Some("z"), None),
        "c" := Person("c", None, Some("a")), "d" := Person("d", Some("a"), Some("c"))]
  }

  lemma DistinctIds()
    ensures "z" != "a" && "z" != "c" && "z" != "d" && "a" != "c" && "a" != "d" && "c" != "d"
  {
    assert "z"[0] != "a"[0] && "z"[0] != "c"[0] && "z"[0] != "d"[0];
    assert "a"[0] != "c"[0] && "a"[0] != "d"[0] && "c"[0] != "d"[0];
  }

  /** The shape of the pedigree above, stated on its links only. */
  ghost predicate CollapseShape(mm: MemberMap) {
    && WellKeyed(mm) && "z" in mm && "a" in mm && "c" in mm && "d" in mm
    && mm["z"].fatherId == None && mm["z"].motherId == None
    && mm["a"].fatherId == Some("z") && mm["a"].motherId == None
    && mm["c"].fatherId == None && mm["c"].motherId == Some("a")
    && mm["d"].fatherId == Some("a") && mm["d"].motherId == Some("c")
  }

  lemma CollapseResolves(mm: MemberMap)
    requires CollapseShape(mm)
    ensures Resolves(mm, Some("z")) && Resolves(mm, Some("a"))
    ensures Resolves(mm, Some("c")) && !Resolves(mm, None)
  {
  }

  /** The ranks z0, a1, c2, d3 witness that the pedigree is acyclic. */
  lemma CollapseRanked()
    ensures CollapseShape(Collapse())
    ensures Ranked(Collapse(), map["z" := 0, "a" := 1, "c" := 2, "d" := 3])
  {
    DistinctIds();
    CollapseResolves(Collapse());
  }

  lemma CollapseWalkZ(mm: MemberMap, v: set<string>)
    requires CollapseShape(mm) && "z" !in v
    ensures Walk(mm, mm["z"], v) == (1, v + {"z"})
  {
    RootWalk(mm, mm["z"], v);
  }

  lemma CollapseWalkA(mm: MemberMap, v: set<string>)
    requires CollapseShape(mm) && "a" !in v
    ensures Walk(mm, mm["a"], v) == (2, v + {"a", "z"})
  {
    CollapseResolves(mm);
    FatherOnlyWalk(mm, mm["a"], v);
    var va := v + {"a"};
    if "z" in va {
      assert va == v + {"a", "z"};
    } else {
      CollapseWalkZ(mm, va);
      assert va + {"z"} == v + {"a", "z"};
    }
  }

  /** c's walk counts a as 1, not 2, when a is already in `visited`. */
  lemma CollapseWalkC(mm: MemberMap, v: set<string>)
    requires CollapseShape(mm) && "c" !in v
    ensures "a" in v ==> Walk(mm, mm["c"], v) == (2, v + {"c"})
    ensures "a" !in v ==> Walk(mm, mm["c"], v) == (3, v + {"c", "a", "z"})
  {
    CollapseResolves(mm);
    MotherOnlyWalk(mm, mm["c"], v);
    DistinctIds();
    if "a" !in v {
      CollapseWalkA(mm, v + {"c"});
      assert v + {"c"} + {"a", "z"} == v + {"c", "a", "z"};
    }
  }

  lemma CollapseWalkD(mm: MemberMap)
    requires CollapseShape(mm)
    ensures Walk(mm, mm["d"], {}).0 == 3
  {
    CollapseResolves(mm);
    WalkStep(mm, mm["d"], {});
    DistinctIds();
    assert {} + {"d"} == {"d"};
    CollapseWalkA(mm, {"d"});
    CollapseWalkC(mm, {"d"} + {"a", "z"});
  }

  lemma CollapsePathWalkA(mm: MemberMap, p: set<string>)
    requires CollapseShape(mm) && "a" !in p
    ensures PathWalk(mm, mm["a"], p) == 2
  {
    CollapseResolves(mm);
    PathWalkStep(mm, mm["a"], p);
    var z := mm["z"];
    assert PathWalk(mm, z, p + {"a"}) == 1 by {
      if z.id !in p + {"a"} {
        PathWalkStep(mm, z, p + {"a"});
      }
    }
  }

  lemma CollapsePathWalkC(mm: MemberMap, p: set<string>)
    requires CollapseShape(mm) && "a" !in p && "c" !in p
    ensures PathWalk(mm, mm["c"], p) == 3
  {
    CollapseResolves(mm);
    PathWalkStep(mm, mm["c"], p);
    DistinctIds();
    CollapsePathWalkA(mm, p + {"c"});
  }

  lemma CollapsePathWalkD(mm: MemberMap)
    requires CollapseShape(mm)
    ensures PathWalk(mm, mm["d"], {}) == 4
  {
    CollapseResolves(mm);
    PathWalkStep(mm, mm["d"], {});
    DistinctIds();
    assert {} + {"d"} == {"d"};
    CollapsePathWalkA(mm, {"d"});
    CollapsePathWalkC(mm, {"d"});
  }

  /** On the pedigree above, the walk as written gives d the same generation as
      its mother c (3): the mother's branch finds a already visited and counts it
      as 1. The path-scoped resolver gives d generation 4. */
  lemma SharedVisitedUndercounts()
    ensures var mm := Collapse();
            && Ranked(mm, map["z" := 0, "a" := 1, "c" := 2, "d" := 3])
            && mm["d"].motherId == Some("c")
            && GetGeneration(mm, mm["d"]) == 3
            && GetGeneration(mm, mm["c"]) == 3
            && PathGeneration(mm, mm["d"]) == 4
  {
    var mm := Collapse();
    CollapseRanked();
    CollapseWalkD(mm);
    CollapseWalkC(mm, {});
    CollapsePathWalkD(mm);
  }

  // ---------------------------------------------------------------------------
  // Annotating the member list
  // ---------------------------------------------------------------------------

  /** `membersWithConditions.map((m) => ({...m, generation: getGeneration(m)}))`:
      same length and order, every field kept except `generation`, which is the
      walk as written from an empty `visited` set. */
  function Annotate(members: seq<Member>): (r: seq<Member>)
    ensures |r| == |members|
    ensures forall i :: 0 <= i < |members| ==>
              r[i] == members[i].(generation := GetGeneration(BuildMemberMap(members), members[i]))
    ensures forall i :: 0 <= i < |members| ==> 1 <= r[i].generation <= 1 + |BuildMemberMap(members)|
  {
    var mm := BuildMemberMap(members);
    seq(|members|, i requires 0 <= i < |members| =>
      assert members[i].id in mm;
      members[i].(generation := GetGeneration(mm, members[i])))
  }

  /** The annotation with the path-scoped resolver: the list the page evidently
      intends, in which a member lies below each resolvable parent. */
  function AnnotateIntended(members: seq<Member>): (r: seq<Member>)
    ensures |r| == |members|
    ensures forall i :: 0 <= i < |members| ==>
              r[i] == members[i].(generation := PathGeneration(BuildMemberMap(members), members[i]))
    ensures forall i :: 0 <= i < |members| ==> 1 <= r[i].generation <= 1 + |BuildMemberMap(members)|
  {
    var mm := BuildMemberMap(members);
    seq(|members|, i requires 0 <= i < |members| =>
      assert members[i].id in mm && mm.Keys + {members[i].id} == mm.Keys;
      members[i].(generation := PathGeneration(mm, members[i])))
  }

  /** When no ancestor is reachable along two lines, the page's annotation is
      the intended one: each member that owns its id gets the same generation. */
  lemma AnnotateOnTrees(members: seq<Member>, rank: map<string, nat>, i: nat)
    requires Ranked(BuildMemberMap(members), rank) && TreeShaped(BuildMemberMap(members), rank)
    requires i < |members| && BuildMemberMap(members)[members[i].id] == members[i]
    ensures Annotate(members)[i] == AnnotateIntended(members)[i]
  {
    AsWrittenOnTrees(BuildMemberMap(members), rank, members[i]);
  }

  /** The members of the pedigree of the finding, in the order z, a, c, d. */
  function CollapseMembers(): seq<Member> {
    [Person("z", None, None), Person("a", Some("z"), None),
     Person("c", None, Some("a")), Person("d", Some("a"), Some("c"))]
  }

  /** `memberMap` built from that list is the pedigree above. */
  lemma CollapseMemberMap()
    ensures BuildMemberMap(CollapseMembers()) == Collapse()
  {
    var ms := CollapseMembers();
    DistinctIds();
    assert ms[..1][..0] == [] && ms[..2][..1] == ms[..1];
    assert ms[..3][..2] == ms[..2] && ms[..3] == ms[..|ms| - 1];
    assert BuildMemberMap(ms[..1]) == map["z" := ms[0]];
    assert BuildMemberMap(ms[..2]) == map["z" := ms[0], "a" := ms[1]];
    assert BuildMemberMap(ms[..3]) == map["z" := ms[0], "a" := ms[1], "c" := ms[2]];
    assert BuildMemberMap(ms) == map["z" := ms[0], "a" := ms[1], "c" := ms[2], "d" := ms[3]];
  }

  /** On that list the page writes generation 3 for both c and her son d; the
      intended annotation writes 4 for d. */
  lemma AnnotateUndercounts()
    ensures |Annotate(CollapseMembers())| == 4
    ensures Annotate(CollapseMembers())[2].id == "c" && Annotate(CollapseMembers())[3].id == "d"
    ensures Annotate(CollapseMembers())[3].generation == 3
    ensures Annotate(CollapseMembers())[2].generation == 3
    ensures AnnotateIntended(CollapseMembers())[3].generation == 4
  {
    var ms := CollapseMembers();
    var mm := Collapse();
    CollapseMemberMap();
    assert ms[2] == mm["c"] && ms[3] == mm["d"];
    SharedVisitedUndercounts();
    assert Annotate(ms)[2].generation == GetGeneration(mm, mm["c"]);
    assert Annotate(ms)[3].generation == GetGeneration(mm, mm["d"]);
    assert AnnotateIntended(ms)[3].generation == PathGeneration(mm, mm["d"]);
  }
}
