/** The graph rules of the family tree page
    (client/app/dashboard/treeview/TreeViewPage.tsx): which members may be
    deleted, the strict attribute filter and the clean-up of links that leave
    the filtered set, the suggestion totals and badge count, the descendant
    depth behind the "generations" card, and the parent links of a new child. */
module TreeView {
  import opened Wrappers
  import opened JsStrings
  import opened Seqs

  /** `partnerId` as the API returns it: absent, one id, or a list of ids. */
  datatype PartnerField = NoPartner | OnePartner(partner: string) | Partners(partners: seq<string>)

  /** A family member as the API returns it. */
  datatype ApiMember = ApiMember(
    id: string,
    name: string,
    surname: Option<string>,
    fatherId: Option<string>,
    motherId: Option<string>,
    partnerId: PartnerField,
    gender: Option<string>,
    country: Option<string>,
    status: Option<string>)

  /** A node handed to the tree widget. The two suggestion fields are optional
      because the badge code reads them off whatever node the widget holds. */
  datatype TreeNode = TreeNode(
    id: string,
    name: string,
    surname: Option<string>,
    pids: seq<string>,
    mid: Option<string>,
    fid: Option<string>,
    gender: Option<string>,
    status: string,
    country: string,
    suggestionCount: Option<string>,
    actualSuggestionCount: Option<int>)

  // ---------------------------------------------------------------------------
  // Deleting a member
  // ---------------------------------------------------------------------------

  predicate HasPartner(node: TreeNode) {
    |node.pids| > 0
  }

  /** Some node names `node` as its father or mother. */
  predicate HasChildren(nodes: seq<TreeNode>, node: TreeNode) {
    exists i :: 0 <= i < |nodes| && (nodes[i].fid == Some(node.id) || nodes[i].mid == Some(node.id))
  }

  predicate HasParents(node: TreeNode) {
    Truthy(node.fid) || Truthy(node.mid)
  }

  /** `canDeleteMember`, lines 860-878: the four cases in their order. */
  function CanDeleteMember(nodes: seq<TreeNode>, node: TreeNode): bool {
    var hasPartner, hasChildren, hasParents := HasPartner(node), HasChildren(nodes, node), HasParents(node);
    if hasParents && !hasPartner && !hasChildren then true
    else if hasChildren && hasPartner && !hasParents then true
    else if hasChildren && !hasPartner && !hasParents then true
    else if !hasChildren && hasPartner && !hasParents then true
    else false
  }

  /** The four cases collapse to two: a member with parents and neither partner
      nor children, or a member without parents that has children or a partner. */
  lemma CanDeleteIff(nodes: seq<TreeNode>, node: TreeNode)
    ensures CanDeleteMember(nodes, node) <==>
            (HasParents(node) && !HasPartner(node) && !HasChildren(nodes, node))
            || (!HasParents(node) && (HasChildren(nodes, node) || HasPartner(node)))
  {
  }

  /** An isolated root is never deletable, and neither is a member with parents
      and also a partner or children. */
  lemma CannotDelete(nodes: seq<TreeNode>, node: TreeNode)
    ensures !HasParents(node) && !HasPartner(node) && !HasChildren(nodes, node) ==> !CanDeleteMember(nodes, node)
    ensures HasParents(node) && (HasPartner(node) || HasChildren(nodes, node)) ==> !CanDeleteMember(nodes, node)
  {
    CanDeleteIff(nodes, node);
  }

  // ---------------------------------------------------------------------------
  // The strict filter and the link clean-up
  // ---------------------------------------------------------------------------

  datatype Filters = Filters(gender: string, country: string, status: string)

  /** `filter === "all" || value === filter`: an absent value never equals a string. */
  predicate Matches(filter: string, value: Option<string>) {
    filter == "all" || value == Some(filter)
  }

  predicate PassesFilters(f: Filters, m: ApiMember) {
    Matches(f.gender, m.gender) && Matches(f.country, m.country) && Matches(f.status, m.status)
  }

  /** Lines 1186-1191. */
  function StrictFilter(members: seq<ApiMember>, f: Filters): seq<ApiMember> {
    Filter(members, (m: ApiMember) => PassesFilters(f, m))
  }

  /** Every kept member matches each filter that is not "all", every member
      that does is kept, and with all three filters at "all" nothing is dropped. */
  lemma StrictFilterSpec(members: seq<ApiMember>, f: Filters)
    ensures forall m :: m in StrictFilter(members, f) <==> m in members && PassesFilters(f, m)
    ensures forall m :: m in StrictFilter(members, f) ==>
              && (f.gender != "all" ==> m.gender == Some(f.gender))
              && (f.country != "all" ==> m.country == Some(f.country))
              && (f.status != "all" ==> m.status == Some(f.status))
    ensures f == Filters("all", "all", "all") ==> StrictFilter(members, f) == members
  {
    forall m ensures m in StrictFilter(members, f) <==> m in members && PassesFilters(f, m) {
      FilterMembership(members, (m: ApiMember) => PassesFilters(f, m), m);
    }
    if f == Filters("all", "all", "all") {
      FilterAll(members, (m: ApiMember) => PassesFilters(f, m));
    }
  }

  /** `allowedIds`: the ids of the members the strict filter kept. */
  function AllowedIds(kept: seq<ApiMember>): set<string> {
    set i | 0 <= i < |kept| :: kept[i].id
  }

  /** `Array.isArray(partnerId) ? partnerId.filter(allowed) : []`: a single id
      that is not inside a list is dropped as well. */
  function CleanPartners(p: PartnerField, allowed: set<string>): seq<string> {
    match p
    case Partners(ids) => Filter(ids, (x: string) => x in allowed)
    case _ => []
  }

  /** `id && allowedIds.has(id) ? id : undefined`. */
  function CleanLink(link: Option<string>, allowed: set<string>): Option<string> {
    if Truthy(link) && link.value in allowed then link else None
  }

  /** After the clean-up no partner, mother or father link points outside the
      filtered set; a link that pointed inside is kept as it was, and the kept
      partners are the listed partners inside the set, in order. */
  lemma CleanUpSpec(m: ApiMember, allowed: set<string>)
    ensures forall i :: 0 <= i < |CleanPartners(m.partnerId, allowed)| ==> CleanPartners(m.partnerId, allowed)[i] in allowed
    ensures CleanLink(m.fatherId, allowed).Some? ==> CleanLink(m.fatherId, allowed).value in allowed
    ensures CleanLink(m.motherId, allowed).Some? ==> CleanLink(m.motherId, allowed).value in allowed
    ensures Truthy(m.fatherId) && m.fatherId.value in allowed ==> CleanLink(m.fatherId, allowed) == m.fatherId
    ensures Truthy(m.motherId) && m.motherId.value in allowed ==> CleanLink(m.motherId, allowed) == m.motherId
    ensures m.partnerId.Partners? ==>
              forall x :: x in CleanPartners(m.partnerId, allowed) <==> x in m.partnerId.partners && x in allowed
  {
    if m.partnerId.Partners? {
      forall x ensures x in CleanPartners(m.partnerId, allowed) <==> x in m.partnerId.partners && x in allowed {
        FilterMembership(m.partnerId.partners, (y: string) => y in allowed, x);
      }
    }
  }

  // ---------------------------------------------------------------------------
  // Suggestion counts and the node list
  // ---------------------------------------------------------------------------

  /** What `getMemberSuggestionCount` answers: both counts, or one number. */
  datatype SuggestionReply = Counts(filteredCount: int, actualCount: int) | Plain(count: int)

  /** `actualSuggestionCount`: the actual count of an object reply, else the number itself. */
  function ActualCount(reply: SuggestionReply): int {
    match reply
    case Counts(_, actual) => actual
    case Plain(n) => n
  }

  /** The node built for one kept member, lines 1211-1245, given its actual count. */
  function MakeNode(m: ApiMember, allowed: set<string>, actual: int): TreeNode {
    TreeNode(m.id, m.name, m.surname,
             CleanPartners(m.partnerId, allowed), CleanLink(m.motherId, allowed), CleanLink(m.fatherId, allowed),
             m.gender, if Truthy(m.status) then m.status.value else "alive",
             if Truthy(m.country) then m.country.value else "",
             Some(DecimalString(actual)), Some(actual))
  }

  /** The sum of the actual counts of `kept`'s replies. */
  function TotalSuggestions(kept: seq<ApiMember>, replyFor: string -> SuggestionReply): int {
    if kept == [] then 0
    else TotalSuggestions(kept[..|kept| - 1], replyFor) + ActualCount(replyFor(kept[|kept| - 1].id))
  }

  /** The nodes built for `kept`, in order, each from its own reply. */
  function Nodes(kept: seq<ApiMember>, allowed: set<string>, replyFor: string -> SuggestionReply): (r: seq<TreeNode>)
    ensures |r| == |kept|
  {
    if kept == [] then []
    else
      var last := kept[|kept| - 1];
      Nodes(kept[..|kept| - 1], allowed, replyFor) + [MakeNode(last, allowed, ActualCount(replyFor(last.id)))]
  }

  /** Each node is built from the member at the same place. */
  lemma {:induction false} NodesAt(kept: seq<ApiMember>, allowed: set<string>, replyFor: string -> SuggestionReply, i: nat)
    requires i < |kept|
    ensures Nodes(kept, allowed, replyFor)[i] == MakeNode(kept[i], allowed, ActualCount(replyFor(kept[i].id)))
  {
    if i < |kept| - 1 {
      NodesAt(kept[..|kept| - 1], allowed, replyFor, i);
    }
  }

  /** Extending the member list by one extends the nodes and the total by that member's share. */
  lemma Snoc(kept: seq<ApiMember>, i: nat, allowed: set<string>, replyFor: string -> SuggestionReply)
    requires i < |kept|
    ensures TotalSuggestions(kept[..i + 1], replyFor) == TotalSuggestions(kept[..i], replyFor) + ActualCount(replyFor(kept[i].id))
    ensures Nodes(kept[..i + 1], allowed, replyFor)
            == Nodes(kept[..i], allowed, replyFor) + [MakeNode(kept[i], allowed, ActualCount(replyFor(kept[i].id)))]
  {
    assert kept[..i + 1][..i] == kept[..i];
  }

  /** The map over the kept members (lines 1196-1245): one node per member, in
      order, while `totalSuggestionsCount` adds up the actual counts.
      `replyFor` stands for the network answer for each member id. */
  method ProcessMembers(kept: seq<ApiMember>, replyFor: string -> SuggestionReply)
    returns (nodes: seq<TreeNode>, totalSuggestionsCount: int)
    ensures nodes == Nodes(kept, AllowedIds(kept), replyFor)
    ensures totalSuggestionsCount == TotalSuggestions(kept, replyFor)
  {
    var allowed := AllowedIds(kept);
    nodes, totalSuggestionsCount := [], 0;
    var i := 0;
    while i < |kept|
      invariant 0 <= i <= |kept|
      invariant nodes == Nodes(kept[..i], allowed, replyFor)
      invariant totalSuggestionsCount == TotalSuggestions(kept[..i], replyFor)
    {
      var member := kept[i];
      var actual := ActualCount(replyFor(member.id));
      Snoc(kept, i, allowed, replyFor);
      totalSuggestionsCount := totalSuggestionsCount + actual;
      nodes := nodes + [MakeNode(member, allowed, actual)];
      i := i + 1;
    }
    assert kept[..|kept|] == kept;
  }

  /** The nodes carry exactly the ids the strict filter kept. */
  lemma NodeIdsOfNodes(kept: seq<ApiMember>, allowed: set<string>, replyFor: string -> SuggestionReply)
    ensures NodeIds(Nodes(kept, allowed, replyFor)) == AllowedIds(kept)
  {
    var nodes := Nodes(kept, allowed, replyFor);
    forall i | 0 <= i < |kept| ensures nodes[i].id == kept[i].id {
      NodesAt(kept, allowed, replyFor, i);
    }
  }

  /** Every father, mother and partner link of every node names a node of the
      list: the clean-up leaves no dangling reference. */
  lemma NodesAreClosed(kept: seq<ApiMember>, replyFor: string -> SuggestionReply, k: nat)
    requires k < |kept|
    ensures var nodes := Nodes(kept, AllowedIds(kept), replyFor);
            && (nodes[k].fid.Some? ==> nodes[k].fid.value in NodeIds(nodes))
            && (nodes[k].mid.Some? ==> nodes[k].mid.value in NodeIds(nodes))
            && (forall p :: p in nodes[k].pids ==> p in NodeIds(nodes))
  {
    var allowed := AllowedIds(kept);
    NodeIdsOfNodes(kept, allowed, replyFor);
    NodesAt(kept, allowed, replyFor, k);
    CleanUpSpec(kept[k], allowed);
  }

  /** The count on a node's suggestion badge, lines 586-591: the actual count
      when the node has one, else the parsed `suggestionCount` when that is a
      non-empty string, else 0. `None` is the `NaN` that `parseInt` gives for
      text without digits. */
  function BadgeCount(node: TreeNode): Option<int> {
    if node.actualSuggestionCount.Some? then node.actualSuggestionCount
    else if Truthy(node.suggestionCount) then ParseInt(node.suggestionCount.value)
    else Some(0)
  }

  /** A node built by the page shows its actual count; a node that carries only
      the text form of a count shows that count, since the text parses back;
      a node with neither shows 0. */
  lemma BadgeCountSpec(m: ApiMember, allowed: set<string>, actual: int, node: TreeNode, n: int)
    ensures BadgeCount(MakeNode(m, allowed, actual)) == Some(actual)
    ensures node.actualSuggestionCount == None && node.suggestionCount == Some(DecimalString(n)) ==>
              BadgeCount(node) == Some(n)
    ensures node.actualSuggestionCount == None && !Truthy(node.suggestionCount) ==> BadgeCount(node) == Some(0)
  {
    ParseIntDecimalString(n);
    assert DecimalString(n) != "" by {
      if n < 0 {
        assert DecimalString(n) == "-" + NatDigits(-n);
      } else {
        assert DecimalString(n) == NatDigits(n);
      }
    }
  }

  // ---------------------------------------------------------------------------
  // Descendant depth
  // ---------------------------------------------------------------------------

  function NodeIds(nodes: seq<TreeNode>): set<string> {
    set i | 0 <= i < |nodes| :: nodes[i].id
  }

  predicate IsChildOf(id: string, m: TreeNode) {
    m.fid == Some(id) || m.mid == Some(id)
  }

  /** `processedData.filter((m) => m.fid === memberId || m.mid === memberId)`. */
  function Children(nodes: seq<TreeNode>, id: string): seq<TreeNode> {
    Filter(nodes, (m: TreeNode) => IsChildOf(id, m))
  }

  /** `findGenerationDepth(memberId, depth, visited)`, lines 1253-1264. Each
      child receives its own copy of `visited` with the current id added, so
      the set is a value here: no branch sees what a sibling branch added.
      Its properties are the lemmas below. */
  function Depth(nodes: seq<TreeNode>, id: string, depth: int, visited: set<string>): int
    decreases |NodeIds(nodes) - visited|, 1
  {
    if id in visited then depth
    else if id !in NodeIds(nodes) then depth
    else
      var children := Children(nodes, id);
      if children == [] then depth
      else
        var visited' := visited + {id};
        assert NodeIds(nodes) - visited == (NodeIds(nodes) - visited') + {id};
        MaxDepth(nodes, children, depth + 1, visited')
  }

  /** `Math.max(...children.map((child) => findGenerationDepth(child.id, depth + 1, new Set(visited))))`,
      called by `Depth` with `depth + 1` and the copied `visited` already passed in. */
  function MaxDepth(nodes: seq<TreeNode>, children: seq<TreeNode>, depth: int, visited: set<string>): int
    requires children != []
    decreases |NodeIds(nodes) - visited| + 1, 0, |children|
  {
    var first := Depth(nodes, children[0].id, depth, visited);
    if |children| == 1 then first
    else
      var rest := MaxDepth(nodes, children[1..], depth, visited);
      if first < rest then rest else first
  }

  /** The maximum over the children is the depth of one of them and at least
      the depth of each. */
  lemma {:induction false} MaxDepthIsMax(nodes: seq<TreeNode>, children: seq<TreeNode>, depth: int, visited: set<string>)
    requires children != []
    ensures forall i :: 0 <= i < |children| ==>
              Depth(nodes, children[i].id, depth, visited) <= MaxDepth(nodes, children, depth, visited)
    ensures exists i :: 0 <= i < |children| &&
              Depth(nodes, children[i].id, depth, visited) == MaxDepth(nodes, children, depth, visited)
    decreases |children|
  {
    var r := MaxDepth(nodes, children, depth, visited);
    if |children| > 1 {
      var tail := children[1..];
      var rest := MaxDepth(nodes, tail, depth, visited);
      MaxDepthIsMax(nodes, tail, depth, visited);
      forall i | 0 <= i < |children| ensures Depth(nodes, children[i].id, depth, visited) <= r {
        if i > 0 {
          assert children[i] == tail[i - 1];
        }
      }
      if r == rest {
        var k :| 0 <= k < |tail| && Depth(nodes, tail[k].id, depth, visited) == rest;
        assert children[k + 1] == tail[k];
      }
    }
  }

  /** The depth never falls below the starting depth and never climbs by more
      than the number of ids not yet visited. */
  lemma {:induction false} DepthBounds(nodes: seq<TreeNode>, id: string, depth: int, visited: set<string>)
    ensures depth <= Depth(nodes, id, depth, visited) <= depth + |NodeIds(nodes) - visited|
    decreases |NodeIds(nodes) - visited|, 1
  {
    if id !in visited && id in NodeIds(nodes) {
      var children := Children(nodes, id);
      if children != [] {
        var visited' := visited + {id};
        assert NodeIds(nodes) - visited == (NodeIds(nodes) - visited') + {id};
        MaxDepthBounds(nodes, children, depth + 1, visited');
      }
    }
  }

  lemma {:induction false} MaxDepthBounds(nodes: seq<TreeNode>, children: seq<TreeNode>, depth: int, visited: set<string>)
    requires children != []
    ensures depth <= MaxDepth(nodes, children, depth, visited) <= depth + |NodeIds(nodes) - visited|
    decreases |NodeIds(nodes) - visited| + 1, 0
  {
    MaxDepthIsMax(nodes, children, depth, visited);
    var k :| 0 <= k < |children| && Depth(nodes, children[k].id, depth, visited) == MaxDepth(nodes, children, depth, visited);
    DepthBounds(nodes, children[k].id, depth, visited);
  }

  /** The walk stops at the starting depth exactly for a revisited id, an id
      no node carries, or a node without children; anywhere else it goes at
      least one level deeper. */
  lemma DepthStops(nodes: seq<TreeNode>, id: string, depth: int, visited: set<string>)
    ensures Depth(nodes, id, depth, visited) == depth <==>
            id in visited || id !in NodeIds(nodes) || Children(nodes, id) == []
    ensures !(id in visited || id !in NodeIds(nodes) || Children(nodes, id) == []) ==>
            Depth(nodes, id, depth, visited) >= depth + 1
  {
    if !(id in visited || id !in NodeIds(nodes) || Children(nodes, id) == []) {
      MaxDepthBounds(nodes, Children(nodes, id), depth + 1, visited + {id});
    }
  }

  /** An unvisited member with a child is at least one deeper than that child,
      explored with the member added to `visited`. */
  lemma DepthAtLeastChild(nodes: seq<TreeNode>, id: string, depth: int, visited: set<string>, j: nat)
    requires id !in visited && id in NodeIds(nodes)
    requires j < |nodes| && IsChildOf(id, nodes[j])
    ensures Depth(nodes, id, depth, visited) >= Depth(nodes, nodes[j].id, depth + 1, visited + {id})
  {
    var children := Children(nodes, id);
    FilterMembership(nodes, (m: TreeNode) => IsChildOf(id, m), nodes[j]);
    var k :| 0 <= k < |children| && children[k] == nodes[j];
    MaxDepthIsMax(nodes, children, depth + 1, visited + {id});
  }

  /** A line of descent through the node list, given by positions: each node
      after the first names the previous one as father or mother, and no id
      occurs twice. */
  predicate SimplePath(nodes: seq<TreeNode>, path: seq<nat>) {
    && (forall i :: 0 <= i < |path| ==> path[i] < |nodes|)
    && (forall i :: 0 <= i < |path| - 1 ==> IsChildOf(nodes[path[i]].id, nodes[path[i + 1]]))
    && (forall a, b :: 0 <= a < b < |path| ==> nodes[path[a]].id != nodes[path[b]].id)
  }

  /** Dropping the first node of a line of descent leaves one that also
      avoids the first node's id. */
  lemma PathTail(nodes: seq<TreeNode>, path: seq<nat>, visited: set<string>)
    requires |path| > 1 && SimplePath(nodes, path)
    requires forall i :: 0 <= i < |path| ==> nodes[path[i]].id !in visited
    ensures SimplePath(nodes, path[1..])
    ensures forall i :: 0 <= i < |path| - 1 ==> nodes[path[1..][i]].id !in visited + {nodes[path[0]].id}
  {
    var tail := path[1..];
    forall i | 0 <= i < |tail| ensures tail[i] == path[i + 1] && tail[i] < |nodes| {
    }
    forall i | 0 <= i < |tail| - 1 ensures IsChildOf(nodes[tail[i]].id, nodes[tail[i + 1]]) {
      assert tail[i] == path[i + 1] && tail[i + 1] == path[i + 2];
    }
    forall a, b | 0 <= a < b < |tail| ensures nodes[tail[a]].id != nodes[tail[b]].id {
      assert tail[a] == path[a + 1] && tail[b] == path[b + 1];
    }
  }

  /** The depth is at least as deep as any line of descent that avoids
      `visited`: the per-branch copies of `visited` never cut a simple line short. */
  lemma {:induction false} DepthCoversPaths(nodes: seq<TreeNode>, path: seq<nat>, depth: int, visited: set<string>)
    requires path != [] && SimplePath(nodes, path)
    requires forall i :: 0 <= i < |path| ==> nodes[path[i]].id !in visited
    ensures Depth(nodes, nodes[path[0]].id, depth, visited) >= depth + |path| - 1
    decreases |path|
  {
    if |path| == 1 {
      DepthBounds(nodes, nodes[path[0]].id, depth, visited);
    } else {
      var id := nodes[path[0]].id;
      assert id in NodeIds(nodes);
      DepthAtLeastChild(nodes, id, depth, visited, path[1]);
      var tail := path[1..];
      PathTail(nodes, path, visited);
      DepthCoversPaths(nodes, tail, depth + 1, visited + {id});
    }
  }

  /** The nodes without a father or mother. */
  predicate IsRoot(m: TreeNode) {
    !Truthy(m.fid) && !Truthy(m.mid)
  }

  function Roots(nodes: seq<TreeNode>): seq<TreeNode> {
    Filter(nodes, IsRoot)
  }

  /** `maxGeneration`, lines 1267-1269: 1 without roots, else the deepest root. */
  function MaxGeneration(nodes: seq<TreeNode>): int {
    var roots := Roots(nodes);
    if roots == [] then 1 else MaxDepth(nodes, roots, 1, {})
  }

  /** No more distinct ids than nodes. */
  lemma {:induction false} NodeIdsBound(nodes: seq<TreeNode>)
    ensures |NodeIds(nodes)| <= |nodes|
  {
    if nodes != [] {
      var front := nodes[..|nodes| - 1];
      var last := nodes[|nodes| - 1].id;
      NodeIdsBound(front);
      assert NodeIds(nodes) == NodeIds(front) + {last} by {
        forall x | x in NodeIds(nodes) ensures x in NodeIds(front) + {last} {
          var i :| 0 <= i < |nodes| && nodes[i].id == x;
          if i < |front| { assert front[i].id == x; }
        }
        forall x | x in NodeIds(front) ensures x in NodeIds(nodes) {
          var i :| 0 <= i < |front| && front[i].id == x;
          assert nodes[i].id == x;
        }
      }
      assert |NodeIds(front) + {last}| <= |NodeIds(front)| + 1;
    }
  }

  /** The generations card counts at least 1 and at most one more than the
      number of nodes; with roots it is the depth of the deepest root, and it
      covers every simple chain of descendants starting at a root. */
  lemma MaxGenerationSpec(nodes: seq<TreeNode>, path: seq<nat>)
    ensures 1 <= MaxGeneration(nodes) <= 1 + |nodes|
    ensures Roots(nodes) == [] ==> MaxGeneration(nodes) == 1
    ensures Roots(nodes) != [] ==>
              (forall i :: 0 <= i < |Roots(nodes)| ==> Depth(nodes, Roots(nodes)[i].id, 1, {}) <= MaxGeneration(nodes))
              && exists i :: 0 <= i < |Roots(nodes)| && Depth(nodes, Roots(nodes)[i].id, 1, {}) == MaxGeneration(nodes)
    ensures path != [] && SimplePath(nodes, path) && IsRoot(nodes[path[0]]) ==> MaxGeneration(nodes) >= |path|
  {
    var roots := Roots(nodes);
    if roots != [] {
      NodeIdsBound(nodes);
      assert NodeIds(nodes) - {} == NodeIds(nodes);
      MaxDepthBounds(nodes, roots, 1, {});
      MaxDepthIsMax(nodes, roots, 1, {});
      if path != [] && SimplePath(nodes, path) && IsRoot(nodes[path[0]]) {
        DepthCoversPaths(nodes, path, 1, {});
        FilterMembership(nodes, IsRoot, nodes[path[0]]);
      }
    }
  }

  /** The card values of lines 1160-1170 and 1271-1274 that the model keeps. */
  datatype TreeStats = TreeStats(totalMembers: int, generations: int, totalSuggestions: int)

  /** The statistics after a fetch: all zero when the API returned nobody;
      unchanged when the strict filter kept nobody (the page does not update
      them then); otherwise the node count, `maxGeneration` and the total. */
  function StatsAfterFetch(previous: TreeStats, fetched: seq<ApiMember>, f: Filters,
                           replyFor: string -> SuggestionReply): TreeStats
  {
    var kept := StrictFilter(fetched, f);
    if fetched == [] then TreeStats(0, 0, 0)
    else if kept == [] then previous
    else
      var nodes := Nodes(kept, AllowedIds(kept), replyFor);
      TreeStats(|kept|, MaxGeneration(nodes), TotalSuggestions(kept, replyFor))
  }

  /** The generations card is 0 only for an empty fetch, keeps its old value
      when the filter empties the list, and is at least 1 otherwise. */
  lemma StatsAfterFetchSpec(previous: TreeStats, fetched: seq<ApiMember>, f: Filters,
                            replyFor: string -> SuggestionReply)
    ensures fetched == [] ==> StatsAfterFetch(previous, fetched, f, replyFor) == TreeStats(0, 0, 0)
    ensures fetched != [] && StrictFilter(fetched, f) == [] ==> StatsAfterFetch(previous, fetched, f, replyFor) == previous
    ensures StrictFilter(fetched, f) != [] ==>
              && StatsAfterFetch(previous, fetched, f, replyFor).totalMembers == |StrictFilter(fetched, f)|
              && 1 <= StatsAfterFetch(previous, fetched, f, replyFor).generations <= 1 + |StrictFilter(fetched, f)|
  {
    var kept := StrictFilter(fetched, f);
    if kept != [] {
      var nodes := Nodes(kept, AllowedIds(kept), replyFor);
      MaxGenerationSpec(nodes, []);
    }
  }

  // ---------------------------------------------------------------------------
  // Adding a son or a daughter
  // ---------------------------------------------------------------------------

  datatype ChildKind = Son | Daughter

  /** `newMemberData` of lines 994-1012. */
  datatype NewMember = NewMember(name: string, surname: string, gender: string,
                                 fatherId: Option<string>, motherId: Option<string>)

  /** `node.pids && node.pids[0]`: the first partner, when there is one and it is not empty. */
  function FirstPartner(node: TreeNode): Option<string> {
    if |node.pids| > 0 && node.pids[0] != "" then Some(node.pids[0]) else None
  }

  /** The data for a new child of `node`: a male node becomes the father and its
      first partner, if any, the mother; any other node becomes the mother and
      its first partner, if any, the father. */
  method AddChildData(node: TreeNode, kind: ChildKind) returns (data: NewMember)
    ensures data.name == "Unknown" && data.surname == "Unknown"
    ensures data.gender == if kind == Son then "male" else "female"
    ensures node.gender == Some("male") ==> data.fatherId == Some(node.id) && data.motherId == FirstPartner(node)
    ensures node.gender != Some("male") ==> data.motherId == Some(node.id) && data.fatherId == FirstPartner(node)
  {
    var gender := if kind == Son then "male" else "female";
    data := NewMember("Unknown", "Unknown", gender, None, None);
    if node.gender == Some("male") {
      data := data.(fatherId := Some(node.id));
      if |node.pids| > 0 && node.pids[0] != "" {
        data := data.(motherId := Some(node.pids[0]));
      }
    } else {
      data := data.(motherId := Some(node.id));
      if |node.pids| > 0 && node.pids[0] != "" {
        data := data.(fatherId := Some(node.pids[0]));
      }
    }
  }

  /** A node for the new child under `id`, carrying the parent links exactly as
      `AddChildData` assigned them. */
  function ChildNode(id: string, data: NewMember): TreeNode {
    TreeNode(id, data.name, Some(data.surname), [], data.motherId, data.fatherId,
             Some(data.gender), "alive", "", None, None)
  }

  /** In a node list that also holds the new child with its links as assigned,
      every node the child names as a parent (the node it was added from, and
      that node's first partner) has children: a root among them is then
      deletable, and a member with parents no longer is. */
  lemma AddChildLinks(nodes: seq<TreeNode>, node: TreeNode, data: NewMember, id: string)
    requires data.fatherId == Some(node.id) || data.motherId == Some(node.id)
    ensures HasChildren(nodes + [ChildNode(id, data)], node)
    ensures !HasParents(node) ==> CanDeleteMember(nodes + [ChildNode(id, data)], node)
    ensures HasParents(node) ==> !CanDeleteMember(nodes + [ChildNode(id, data)], node)
  {
    var all := nodes + [ChildNode(id, data)];
    assert all[|nodes|] == ChildNode(id, data);
    CanDeleteIff(all, node);
  }
}
