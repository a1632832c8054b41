# TreeTrace family-graph and statistics rules in Dafny

TreeTrace is a family-tree web application. Its client pages hold a few
small pieces of logic over the family graph and over members' health
records. This project states that logic in Dafny and proves what the pages
promise about it. The pieces are:

- **Generation resolver** (health overview page). `getGeneration` walks
  father and mother links through `memberMap`. A member's generation is
  `1 + max(father, mother)`, and an unset or dangling parent counts 0. A
  `visited` set stops the walk on cycles. `Generation.Walk` models the code
  as written. Its single `visited` set is shared by both parent branches,
  so the function returns the generation together with the set as the walk
  leaves it.
- **Annotation.** `Generation.Annotate` is the page's
  `membersWithConditions.map`: every member gets `getGeneration(m)`, the walk
  as written. That generation feeds the sort by generation and the CSV.
- **Corrected resolver.** `Generation.PathWalk` gives each parent branch its
  own copy of the ids above it, as the tree view's `findGenerationDepth` does
  with `new Set(visited)`. With that guard a child's generation exceeds each
  resolvable parent's. `Generation.AnnotateIntended` is the annotation with
  it. The corrected resolver exists to state the intended property and to
  measure the code against it; the page's list is modelled with the code's
  walk. See "## Findings".
- **Health statistics** (`calculateStats`): the union of medical
  conditions, built through a `Set`; the condition and blood-type tallies,
  kept as insertion-ordered JavaScript objects; the "first strict maximum"
  loops that pick the card values; and the card labels.
- **Member table** (health overview page): the condition and name-search
  filters, the sort by generation or by lower-cased name, and the header
  and cells of the CSV export.
- **Tree-view graph rules** (tree view page):
  - the `canDeleteMember` decision table;
  - the strict attribute filter and the clean-up of father, mother and
    partner references that point outside the kept set;
  - construction of the nodes and the suggestion total;
  - the badge count;
  - the descendant-depth walk `findGenerationDepth` and `maxGeneration`;
  - the statistics set after a fetch;
  - the parent links of a new son or daughter.
- **Screenshot carousel** (landing page): one index, `currentSlide`. The
  timer and the right arrow move it forward, the left arrow moves it back,
  and the dots set it directly.

Modules:

- Helper modules model the JavaScript semantics the pages rely on:
  - `Wrappers`: `Option`.
  - `JsStrings`: truthiness, `trim`, ASCII `toLowerCase`, `includes`,
    string `<`, `parseInt` and `Number.prototype.toString`.
  - `JsRecord`: a plain object used as a dictionary.
  - `Seqs`: `Array.prototype.filter` and the order a `Set` keeps.
- `HealthMember` holds the member record.
- The other modules follow the pages: `Generation`, `HealthStats`,
  `HealthList`, `TreeView` and `Slideshow`.

Where the code works by updating state step by step, the model does too:

- `CollectConditions` and `AddConditions` build the condition `Set`.
- `ConditionCounts`, `BloodTypeCounts` and `MostCommon` are the `forEach`
  loops of `calculateStats`.
- `ProcessMembers` is the map that adds to `totalSuggestionsCount`.
- `AddChildData` assigns the fields of `newMemberData`.
- The `Carousel` class holds `currentSlide`.

Each of these is proved against a reference function. The lemmas then
prove the page's promises about that function.

The generation recurrence `1 + max(father, mother)` makes a child's
generation exceed each parent's, and the tree view's depth walk scopes its
`visited` set to the current path. `getGeneration` instead shares one set
across both branches, which breaks that on a pedigree with a repeated
ancestor. The model follows the code, and proves how far the two agree (see
"## Findings").

## Model

| member | source | states |
|---|---|---|
| Generation.BuildMemberMap | client/app/dashboard/health-overview/page.tsx:154-155 | every key of `memberMap` holds a member carrying that id, and the keys are exactly the ids of the list |
| Generation.BuildMemberMapLastWins | client/app/dashboard/health-overview/page.tsx:155 | an id that no later member repeats maps to the member that carries it (a repeated id keeps the last member) |
| Generation.Walk | client/app/dashboard/health-overview/page.tsx:156-168 | the walk as written returns a generation of at least 1, and the member's own id is visited afterwards |
| Generation.WalkBounds | client/app/dashboard/health-overview/page.tsx:157-168 | the shared set only gains the start id and map keys; the generation is at most one more than the number of ids not yet visited |
| Generation.LinkStepBounds | client/app/dashboard/health-overview/page.tsx:161-166 | the same bounds for one parent branch, which is 0 when the link does not resolve |
| Generation.GetGeneration | client/app/dashboard/health-overview/page.tsx:156-168 | whatever the links, cycles included, the walk terminates with a result in 1..1+\|memberMap ∪ {id}\|, at most 1+\|memberMap\| for a member of the map |
| Generation.RootIsGenerationOne | client/app/dashboard/health-overview/page.tsx:159-167 | a member whose father and mother are both unset, empty or dangling gets generation 1 |
| Generation.RootWalk | client/app/dashboard/health-overview/page.tsx:157-168 | such a member, unvisited, adds only itself to `visited` |
| Generation.FatherOnlyWalk | client/app/dashboard/health-overview/page.tsx:161-167 | with only the father resolvable, the member is one generation below the father's walk, which starts from `visited` plus the member |
| Generation.MotherOnlyWalk | client/app/dashboard/health-overview/page.tsx:164-167 | the same with only the mother resolvable |
| Generation.MutualFathers | client/app/dashboard/health-overview/page.tsx:157-158 | two members that name each other as father get a finite generation: 3 |
| Generation.PathWalkBounds | client/app/dashboard/health-overview/page.tsx:156-168 | the path-scoped resolver gives at least 1 and at most one more than the number of ids off the path |
| Generation.LinkWalkBounds | client/app/dashboard/health-overview/page.tsx:161-166 | one parent branch of the path-scoped resolver gives 0 to 1+\|ids off the path\| |
| Generation.PathGeneration | client/app/dashboard/health-overview/page.tsx:156-168 | the corrected generation lies in 1..1+\|memberMap ∪ {id}\| |
| Generation.PathWalkIgnoresDescendants | client/app/dashboard/health-overview/page.tsx:157-158 | on acyclic ancestry, a path made of descendants never cuts a member's walk short |
| Generation.LinkWalkIgnoresDescendants | client/app/dashboard/health-overview/page.tsx:161-166 | the same for one parent branch of a member |
| Generation.GenerationExceedsParents | client/app/dashboard/health-overview/page.tsx:161-167 | on acyclic ancestry the corrected generation is 1 + max(resolvable parents' generations, 0 for the others), so it is strictly greater than each resolvable parent's |
| Generation.WalkAgreesOnTrees | client/app/dashboard/health-overview/page.tsx:156-168 | when no ancestor is reachable along two lines, the walk as written gives the corrected generation and leaves `visited` as the ids passed in plus the member's whole ancestry |
| Generation.LinkStepAgreesOnTrees | client/app/dashboard/health-overview/page.tsx:161-166 | the same for one parent branch |
| Generation.AsWrittenOnTrees | client/app/dashboard/health-overview/page.tsx:161-167 | on tree-shaped ancestry `getGeneration` is 1 + max(parents), and a member lies strictly below each resolvable parent |
| Generation.SharedVisitedUndercounts | client/app/dashboard/health-overview/page.tsx:162-165 | on an acyclic pedigree with a repeated ancestor, `getGeneration` gives a child the same generation as its mother (3); the corrected resolver gives 4 |
| Generation.Annotate | client/app/dashboard/health-overview/page.tsx:169-172 | the annotation keeps length, order and every field except `generation`, which becomes `getGeneration(m)` on the map built from the list (between 1 and 1+\|memberMap\|) |
| Generation.AnnotateIntended | client/app/dashboard/health-overview/page.tsx:169-172 | the corrected annotation keeps every other field and writes the path-scoped generation, between 1 and 1+\|memberMap\| |
| Generation.AnnotateOnTrees | client/app/dashboard/health-overview/page.tsx:169-172 | on tree-shaped ancestry the page's annotation equals the corrected one for every member that owns its id in `memberMap` |
| Generation.AnnotateUndercounts | client/app/dashboard/health-overview/page.tsx:169-172 | on the member list z, a, c, d of the finding the page writes generation 3 for both c and her son d; the corrected annotation writes 4 for d |
| HealthStats.FlattenElements | client/app/dashboard/health-overview/page.tsx:175 | the conditions visited by the nested `forEach` are exactly the union of all members' conditions |
| HealthStats.AddConditions | client/app/dashboard/health-overview/page.tsx:175 | adding one member's conditions to the `Set` gives the first-appearance de-duplication of everything added so far, and the set holds exactly its elements |
| HealthStats.CollectConditions | client/app/dashboard/health-overview/page.tsx:174-177 | `Array.from(allConditions)` is the first-appearance de-duplication of every member's conditions, in visiting order |
| HealthStats.ConditionsAreUnion | client/app/dashboard/health-overview/page.tsx:174-177 | the condition list has no repeats, holds exactly the union of the members' conditions, and its length (`uniqueConditions`) is the size of that union |
| HealthStats.ConditionCounts | client/app/dashboard/health-overview/page.tsx:189-193 | the loop fills `conditionCounts` as the tally function specifies |
| HealthStats.ConditionTallyGet | client/app/dashboard/health-overview/page.tsx:190-193 | a listed condition reads the number of members that have it; any other key is undefined |
| HealthStats.ConditionTallyKeys | client/app/dashboard/health-overview/page.tsx:190-193 | `Object.keys(conditionCounts)` is the condition list without repeats, in first-appearance order |
| HealthStats.CountWithBounds | client/app/dashboard/health-overview/page.tsx:192 | a count is at most the number of members, and it is 0 exactly when no member has the condition |
| HealthStats.MostCommon | client/app/dashboard/health-overview/page.tsx:196-203 | the loop over `Object.entries` ends with the leader the reference function `Leader` picks |
| HealthStats.LeaderIsFirstMaximum | client/app/dashboard/health-overview/page.tsx:196-203 | the leader's count is at least 0 and at least every entry's count; a positive leader is the first entry holding the maximum; with no positive count it stays ("", 0) |
| HealthStats.TallyEntry | client/app/dashboard/health-overview/page.tsx:190-193 | each entry of the condition tally pairs a listed condition with its member count |
| HealthStats.ConditionLeader | client/app/dashboard/health-overview/page.tsx:189-203 | the winning count is 0, and the winner is ("", 0), exactly when no member has a listed condition; otherwise the winner is a listed condition that no other listed condition beats; with no empty-string condition, an empty winner means no member has a listed condition (label "None") |
| HealthStats.AddBloodTypeGet | client/app/dashboard/health-overview/page.tsx:207-210 | one member raises only its own blood type's slot, by 1 (starting from `\|\| 0`); a member without a type changes nothing |
| HealthStats.BloodTypeCounts | client/app/dashboard/health-overview/page.tsx:205-211 | the loop fills `bloodTypeCounts` as the tally function specifies |
| HealthStats.BloodTallyContents | client/app/dashboard/health-overview/page.tsx:205-211 | a blood type some member has reads its number of members; any other key, the empty string included, is undefined |
| HealthStats.BloodTallyShape | client/app/dashboard/health-overview/page.tsx:205-211 | every entry counts at least one member, and no key appears twice |
| HealthStats.BloodTallyEmpty | client/app/dashboard/health-overview/page.tsx:207-211 | when no member has a blood type, the tally is empty |
| HealthStats.KeyHasMembers | client/app/dashboard/health-overview/page.tsx:205-211 | every key of the blood tally is a non-empty type that some member has |
| HealthStats.BloodLeaderEmptyIffNoType | client/app/dashboard/health-overview/page.tsx:213-229 | the blood-type winner is empty (label "Unknown") exactly when no member has a blood type; otherwise some member has the winning type |
| HealthStats.SpaceBeforeCapitalsRoundTrip | client/app/dashboard/health-overview/page.tsx:227 | inserting a space before each capital loses nothing: dropping those spaces gives the condition name back |
| HealthStats.CapitalizeFirst | client/app/dashboard/health-overview/page.tsx:227 | `/^./` upper-cases the first character unless it is a line terminator, and the rest is kept |
| HealthStats.CalculateStats | client/app/dashboard/health-overview/page.tsx:188-231 | the cards show the member count, the condition count, the label of the condition winner and the label of the blood-type winner |
| HealthList.FilterMembersSpec | client/app/dashboard/health-overview/page.tsx:234-242 | the filtered list is a sub-multiset of the members; a member is in it exactly when it has the selected condition (if one is set) and, for a non-blank search, its lower-cased full name contains the lower-cased search text |
| HealthList.NoFilterKeepsAll | client/app/dashboard/health-overview/page.tsx:234-242 | with no condition selected and a blank search, every member is shown in order |
| HealthList.CompareMeaning | client/app/dashboard/health-overview/page.tsx:244-253 | the comparator orders by generation (ascending or descending) or by the lower-cased name (ascending or descending) |
| HealthList.InOrderTotal | client/app/dashboard/health-overview/page.tsx:244-253 | any two members are in order one way or the other |
| HealthList.InOrderTransitive | client/app/dashboard/health-overview/page.tsx:244-253 | the comparator's order is transitive |
| HealthList.InsertPermutes | client/app/dashboard/health-overview/page.tsx:244 | one insertion step adds the new member and loses none |
| HealthList.InsertSorted | client/app/dashboard/health-overview/page.tsx:244 | one insertion step keeps the list in comparator order |
| HealthList.SortMembersPermutes | client/app/dashboard/health-overview/page.tsx:244-254 | the sort is a permutation |
| HealthList.SortMembersSorted | client/app/dashboard/health-overview/page.tsx:244-254 | the sort puts every pair in comparator order |
| HealthList.SortMembersSpec | client/app/dashboard/health-overview/page.tsx:244-254 | the sorted table is a permutation of the filtered list, in comparator order |
| HealthList.FilterMembersCount | client/app/dashboard/health-overview/page.tsx:234-242 | a member that passes both active filters is listed as often as it occurs in `members`; any other member not at all |
| HealthList.MemberTableSpec | client/app/dashboard/health-overview/page.tsx:233-254 | the table is a permutation of the filtered list, in comparator order; each member that passes the filters appears exactly as often as in `members`, any other not at all |
| HealthList.Header | client/app/dashboard/health-overview/page.tsx:42 | the header has 3 + \|conditions\| cells, with the conditions after "Name", "Generation", "Blood Type" |
| HealthList.Row | client/app/dashboard/health-overview/page.tsx:43-48 | a data row has 3 + \|conditions\| cells |
| HealthList.ExportRows | client/app/dashboard/health-overview/page.tsx:41-49 | the export has one row per member after the header |
| HealthList.RowCells | client/app/dashboard/health-overview/page.tsx:42-48 | cell by cell, the header and a row hold the names, the trimmed full name, the generation, the blood type or "", and one "Yes"/"" cell per condition |
| HealthList.ExportRowsSpec | client/app/dashboard/health-overview/page.tsx:42-48 | every row is as wide as the header; under condition c a row says "Yes" exactly when the member has c, and "" exactly when it has not; the first three cells are the names, then the trimmed name, the generation and the blood type (empty when unset) |
| JsStrings.TrimEmptyIffBlank | client/app/dashboard/health-overview/page.tsx:238 | `s.trim()` is empty exactly when `s` is all whitespace |
| JsStrings.IncludesIffOccurs | client/app/dashboard/health-overview/page.tsx:241 | `includes` holds exactly when the text occurs at some position |
| JsStrings.ToLower | client/app/dashboard/health-overview/page.tsx:240-241 | lower-casing keeps the length and maps each character by itself |
| JsStrings.StrLessTransitive | client/app/dashboard/health-overview/page.tsx:249-250 | string `<` is transitive |
| JsStrings.StrLessTotal | client/app/dashboard/health-overview/page.tsx:249-250 | of two different strings one is `<` the other |
| JsStrings.StrLessAsymmetric | client/app/dashboard/health-overview/page.tsx:249-250 | no two strings are each `<` the other |
| JsStrings.StrLessIrreflexive | client/app/dashboard/health-overview/page.tsx:249-250 | no string is `<` itself |
| JsStrings.ParseIntDecimalString | client/app/dashboard/treeview/TreeViewPage.tsx:589-590 | `parseInt` reads back the decimal text of any integer, negative ones included |
| JsRecord.GetPut | client/app/dashboard/health-overview/page.tsx:209 | after `r[k] = v`, `k` reads `v` and every other key reads what it read before |
| JsRecord.GetNone | client/app/dashboard/health-overview/page.tsx:209 | `r[k]` is undefined exactly when `k` is not a key |
| JsRecord.PutKeys | client/app/dashboard/health-overview/page.tsx:192 | after `r[k] = v` the keys are unchanged for a known key, and `k` is appended for a new one |
| JsRecord.PutKeepsDistinct | client/app/dashboard/health-overview/page.tsx:192 | assignment never creates a second copy of a key |
| Seqs.Dedup | client/app/dashboard/health-overview/page.tsx:174-177 | the order a `Set` keeps has no repeats and holds exactly the elements added |
| Seqs.FilterCount | client/app/dashboard/health-overview/page.tsx:236 | `filter` keeps every copy of an element that meets the predicate and drops every copy of one that does not |
| Seqs.FilterMembership | client/app/dashboard/health-overview/page.tsx:192 | an element is in `s.filter(p)` exactly when it is in `s` and satisfies `p` |
| TreeView.CanDeleteIff | client/app/dashboard/treeview/TreeViewPage.tsx:860-878 | deletable exactly when (has parents, no partner, no children) or (no parents, and children or a partner) |
| TreeView.CannotDelete | client/app/dashboard/treeview/TreeViewPage.tsx:864-877 | an isolated root is never deletable, and neither is a member with parents plus a partner or children |
| TreeView.StrictFilterSpec | client/app/dashboard/treeview/TreeViewPage.tsx:1186-1191 | a member is kept exactly when it matches each filter; a kept member has the value of each filter that is not "all"; with all three "all" everyone is kept in order |
| TreeView.CleanUpSpec | client/app/dashboard/treeview/TreeViewPage.tsx:1211-1217 | after the clean-up every partner, mother and father link is in `allowedIds`; links already in the set are kept unchanged; the partners are exactly the allowed ones |
| TreeView.NodesAt | client/app/dashboard/treeview/TreeViewPage.tsx:1224-1242 | each node is built from the member at the same position, with that member's own reply |
| TreeView.ProcessMembers | client/app/dashboard/treeview/TreeViewPage.tsx:1196-1246 | the map produces the node list and `totalSuggestionsCount` is the sum of every kept member's actual count |
| TreeView.NodeIdsOfNodes | client/app/dashboard/treeview/TreeViewPage.tsx:1193-1225 | the nodes carry exactly the ids the strict filter kept |
| TreeView.NodesAreClosed | client/app/dashboard/treeview/TreeViewPage.tsx:1211-1217 | every father, mother and partner link of every node names a node of the list |
| TreeView.BadgeCountSpec | client/app/dashboard/treeview/TreeViewPage.tsx:586-594 | a node the page built shows its actual count; a node that has only the text of a count shows that count; a node with neither shows 0 |
| TreeView.MaxDepthIsMax | client/app/dashboard/treeview/TreeViewPage.tsx:1263 | `Math.max` over the children is the depth of one child and at least the depth of each |
| TreeView.DepthBounds | client/app/dashboard/treeview/TreeViewPage.tsx:1253-1264 | the depth is at least the starting depth and at most that depth plus the number of ids not yet visited (n + 1 from depth 1) |
| TreeView.MaxDepthBounds | client/app/dashboard/treeview/TreeViewPage.tsx:1263 | the same bounds for the maximum over a list of children |
| TreeView.DepthStops | client/app/dashboard/treeview/TreeViewPage.tsx:1254-1261 | the walk returns the starting depth exactly for a revisited id, an unknown id or a node without children; otherwise it goes at least one level deeper |
| TreeView.DepthAtLeastChild | client/app/dashboard/treeview/TreeViewPage.tsx:1260-1263 | an unvisited member is at least as deep as each child, explored one level down with the member visited |
| TreeView.DepthCoversPaths | client/app/dashboard/treeview/TreeViewPage.tsx:1253-1264 | the depth from a node covers every simple chain of descendants that starts there and avoids `visited` |
| TreeView.MaxGenerationSpec | client/app/dashboard/treeview/TreeViewPage.tsx:1267-1269 | `maxGeneration` lies in 1..1+\|nodes\| and is 1 when there are no roots; with roots it is the largest root depth and is attained by some root; it is at least the length of any simple chain of descendants from a root |
| TreeView.StatsAfterFetchSpec | client/app/dashboard/treeview/TreeViewPage.tsx:1173-1274 | an empty fetch zeroes the cards; a filter that keeps nobody leaves them unchanged; otherwise the member count is the number kept and the generations card lies in 1..1+that number |
| TreeView.AddChildData | client/app/dashboard/treeview/TreeViewPage.tsx:992-1012 | a new son or daughter is named "Unknown Unknown" and gets the chosen gender; a male node becomes the father with its first partner (if any) as mother; any other node becomes the mother with its first partner as father |
| TreeView.AddChildLinks | client/app/dashboard/treeview/TreeViewPage.tsx:1002-1012 | in a node list that contains the new child with its links as assigned, every node it names as a parent (the node and its first partner) has children: a root among them is deletable, a node with parents is not |
| Slideshow.StepsStayInRange | client/app/page.tsx:110-158 | "next" and "previous" keep the index in [0, n); "next" from the last slide goes to 0, and "previous" from 0 goes to n-1 |
| Slideshow.StepsAreInverse | client/app/page.tsx:144-158 | "previous" undoes "next", and "next" undoes "previous" |
| Slideshow.AdvanceBeforeWrap | client/app/page.tsx:108-113 | before the wrap, each tick moves one slide on |
| Slideshow.AdvanceCompose | client/app/page.tsx:108-113 | ticking a times and then b times is ticking a + b times |
| Slideshow.AdvanceFullCircle | client/app/page.tsx:108-113 | n ticks return to the starting slide, so the timer cycles with period n |
| Slideshow.AdvanceAfterReturn | client/app/page.tsx:108-113 | once n ticks return to the start, they do so from every later slide too |
| Slideshow.Carousel.constructor | client/app/page.tsx:68 | the carousel starts at slide 0 |
| Slideshow.Carousel.Next | client/app/page.tsx:110 | the timer and the right arrow move to `(prev + 1) % n`, wrapping from the last slide to 0 and staying in range |
| Slideshow.Carousel.Previous | client/app/page.tsx:144 | the left arrow moves to `(prev - 1 + n) % n`, wrapping from 0 to the last slide and staying in range |
| Slideshow.Carousel.Select | client/app/page.tsx:173-176 | a dot sets the index to exactly its own position, which is in range |

## Left out

- Network and storage are not modelled: `fetch`, `localStorage`, auth tokens, and `Promise.all` fan-out. `getMemberSuggestionCount` becomes the parameter `replyFor`, and the fetched member list becomes an input.
- `totalSuggestionsCount` is modelled as a sequential sum in member order. The concurrent updates `Promise.all` allows add the same numbers, and the order of a sum does not change it.
- The FamilyTree.js widget, DOM queries, badge styling, event listeners and React rendering are foreign UI code. The badge is modelled only through the number it shows.
- The PDF report (jsPDF) and the AI prompt (`askGemini`) are left out: a foreign library and an external service.
- `exportToCSV` is modelled only up to its rows of cells. `join(",")`, the `Blob` and the download are not modelled; the source does no escaping.
- Timing is not modelled: the five-second period of the carousel timer, `clearInterval`, and re-renders. The carousel has `ScreenshotCount = 5` slides, the length of `screenshots`.
- Dates and the fields they feed are left out: birth and death dates, their formatting, and the oldest and youngest members. So are `imageUrl`, `occupation` and `tags`, which are only displayed.
- `m._id?.toString?.() ?? m.id?.toString?.()` is modelled as the member's `id`. Ids are strings there.
- `Number` values are modelled as unbounded integers. Counts, generations and slide indices stay far below 2^53, so floating-point rounding never comes in. `NaN` from `parseInt` is `None`.
- JsRecord: keys that collide with `Object.prototype` members are not modelled. The model starts every key unset, at 0. On a plain `{}`, a blood type such as "constructor" or "toString" reads an inherited function, so `|| 0` does not apply. An assignment to "__proto__" is swallowed by the setter.
- TreeView.AddChildLinks: storing the child (`handleAddMember`) and reloading the tree are not modelled. The lemma speaks of a node list that contains the child with the links `AddChildData` assigned. After a real reload, an active strict filter (for example gender "female" after adding a son) can drop the child, and then the node gains no children.
- `Object.entries` follows insertion order. JavaScript lists integer-like keys (such as "42") first, and that ordering is not modelled.
- JsStrings.ToLower: maps ASCII letters only; the Unicode case mapping of `toLowerCase` is not modelled.
- JsStrings.StrLess: compares by Unicode code point, not by UTF-16 code unit. The two orders differ only between characters outside the Basic Multilingual Plane and characters U+E000 to U+FFFF.
- HealthStats.CapitalizeFirst: upper-cases ASCII letters only.
- HealthList.SortMembers: modelled as a stable insertion sort. `Array.prototype.sort` is stable, so with this consistent comparator it gives the same order.
- TreeView.CleanPartners: a `partnerId` that is a single string, not an array, becomes `[]`, as the code does.
- Generation: `getGeneration` is modelled as a function that returns the `visited` set it leaves behind. The code mutates one shared set; threading it through the result captures the same sharing.

## Findings

| source | as written | input that shows it | evidently intended | confidence | as-written member | corrected member |
|---|---|---|---|---|---|---|
| client/app/dashboard/health-overview/page.tsx:162-165 | one `visited` set is shared by the father's and the mother's recursive calls, so the mother's branch counts an ancestor the father's branch already visited as 1 | z has no parents; a has father z; c has mother a; d has father a and mother c. `getGeneration(d)` is 3, the same as `getGeneration(c)` | a guard scoped to the current path, which gives each branch its own copy as `findGenerationDepth` does; d then gets 4, above both parents (`Generation.AnnotateIntended` is the list annotated that way) | not executed | Generation.SharedVisitedUndercounts | Generation.GenerationExceedsParents |
