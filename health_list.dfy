/** The member table of the health overview page
    (client/app/dashboard/health-overview/page.tsx): the condition and name
    filters, the sort by generation or by name, and the rows of the CSV export. */
module HealthList {
  import opened Wrappers
  import opened JsStrings
  import opened Seqs
  import opened HealthMember

  // ---------------------------------------------------------------------------
  // Filtering
  // ---------------------------------------------------------------------------

  /** The lower-cased full name contains the lower-cased search text. */
  predicate NameMatches(m: Member, search: string) {
    Includes(ToLower(FullName(m)), ToLower(search))
  }

  /** Lines 234-242: with a condition selected (a non-empty string) only
      members with it stay; with a search text that is not all whitespace only
      members whose name contains it stay. The search text itself is not trimmed. */
  function FilterMembers(members: seq<Member>, selectedCondition: string, search: string): seq<Member> {
    var byCondition :=
      if selectedCondition != "" then Filter(members, (m: Member) => HasCondition(m, selectedCondition))
      else members;
    if Trim(search) != "" then Filter(byCondition, (m: Member) => NameMatches(m, search))
    else byCondition
  }

  /** A member passes both active filters of the table. */
  predicate PassesTableFilters(m: Member, selectedCondition: string, search: string) {
    && (selectedCondition != "" ==> HasCondition(m, selectedCondition))
    && (!IsBlank(search) ==> NameMatches(m, search))
  }

  /** Every member that passes the filters is kept as often as it occurs in
      `members`, and every other member is dropped altogether. */
  lemma FilterMembersCount(members: seq<Member>, selectedCondition: string, search: string, m: Member)
    ensures multiset(FilterMembers(members, selectedCondition, search))[m] ==
            if PassesTableFilters(m, selectedCondition, search) then multiset(members)[m] else 0
  {
    TrimEmptyIffBlank(search);
    var byCondition :=
      if selectedCondition != "" then Filter(members, (m: Member) => HasCondition(m, selectedCondition))
      else members;
    if selectedCondition != "" {
      FilterCount(members, (m: Member) => HasCondition(m, selectedCondition), m);
    }
    if !IsBlank(search) {
      FilterCount(byCondition, (m: Member) => NameMatches(m, search), m);
    }
  }

  /** The filtered list takes nothing twice and nothing new; every member it
      keeps passes both active filters; every member that passes them is kept. */
  lemma FilterMembersSpec(members: seq<Member>, selectedCondition: string, search: string)
    ensures multiset(FilterMembers(members, selectedCondition, search)) <= multiset(members)
    ensures forall m :: m in FilterMembers(members, selectedCondition, search) <==>
              && m in members
              && (selectedCondition != "" ==> HasCondition(m, selectedCondition))
              && (!IsBlank(search) ==> NameMatches(m, search))
  {
    TrimEmptyIffBlank(search);
    var byCondition :=
      if selectedCondition != "" then Filter(members, (m: Member) => HasCondition(m, selectedCondition))
      else members;
    forall m ensures m in byCondition <==> m in members && (selectedCondition != "" ==> HasCondition(m, selectedCondition)) {
      if selectedCondition != "" {
        FilterMembership(members, (m: Member) => HasCondition(m, selectedCondition), m);
      }
    }
    forall m ensures m in FilterMembers(members, selectedCondition, search) <==>
                     m in byCondition && (!IsBlank(search) ==> NameMatches(m, search)) {
      if !IsBlank(search) {
        FilterMembership(byCondition, (m: Member) => NameMatches(m, search), m);
      }
    }
  }

  /** With no condition selected and a blank search the table shows everyone. */
  lemma NoFilterKeepsAll(members: seq<Member>, search: string)
    requires IsBlank(search)
    ensures FilterMembers(members, "", search) == members
  {
    TrimEmptyIffBlank(search);
  }

  // ---------------------------------------------------------------------------
  // Sorting
  // ---------------------------------------------------------------------------

  datatype SortKey = ByName | ByGeneration

  /** `${m.name} ${m.surname || ""}`.toLowerCase(), the name the table sorts by. */
  function SortName(m: Member): string {
    ToLower(FullName(m))
  }

  /** The comparator of lines 243-254: negative when `a` goes first. */
  function Compare(key: SortKey, asc: bool, a: Member, b: Member): int {
    match key
    case ByGeneration => if asc then a.generation - b.generation else b.generation - a.generation
    case ByName =>
      if StrLess(SortName(a), SortName(b)) then (if asc then -1 else 1)
      else if StrLess(SortName(b), SortName(a)) then (if asc then 1 else -1)
      else 0
  }

  /** `a` may stand before `b`. */
  predicate InOrder(key: SortKey, asc: bool, a: Member, b: Member) {
    Compare(key, asc, a, b) <= 0
  }

  /** The comparator ranks members by one key: by generation, up or down; by
      lower-cased name, up or down. */
  lemma CompareMeaning(key: SortKey, asc: bool, a: Member, b: Member)
    ensures key == ByGeneration ==>
              (InOrder(key, asc, a, b) <==> if asc then a.generation <= b.generation else b.generation <= a.generation)
    ensures key == ByName ==>
              (InOrder(key, asc, a, b) <==>
                 if asc then !StrLess(SortName(b), SortName(a)) else !StrLess(SortName(a), SortName(b)))
  {
    if key == ByName && StrLess(SortName(a), SortName(b)) {
      StrLessAsymmetric(SortName(a), SortName(b));
    }
  }

  /** Any two members are in order one way or the other. */
  lemma InOrderTotal(key: SortKey, asc: bool, a: Member, b: Member)
    ensures InOrder(key, asc, a, b) || InOrder(key, asc, b, a)
  {
    if key == ByName && StrLess(SortName(a), SortName(b)) {
      StrLessAsymmetric(SortName(a), SortName(b));
    }
  }

  lemma InOrderTransitive(key: SortKey, asc: bool, a: Member, b: Member, c: Member)
    requires InOrder(key, asc, a, b) && InOrder(key, asc, b, c)
    ensures InOrder(key, asc, a, c)
  {
    CompareMeaning(key, asc, a, b);
    CompareMeaning(key, asc, b, c);
    CompareMeaning(key, asc, a, c);
    if key == ByName {
      var x, y, z := SortName(a), SortName(b), SortName(c);
      if asc && StrLess(z, x) {
        if x == y {
        } else {
          StrLessTotal(x, y);
          StrLessTransitive(z, x, y);
        }
      } else if !asc && StrLess(x, z) {
        if x == y {
        } else {
          StrLessTotal(x, y);
          StrLessTransitive(y, x, z);
        }
      }
    }
  }

  predicate Sorted(key: SortKey, asc: bool, s: seq<Member>) {
    forall i, j :: 0 <= i < j < |s| ==> InOrder(key, asc, s[i], s[j])
  }

  /** Places `x` after every element of the sorted `t` that may stand before it,
      so equal members keep their order. */
  function Insert(key: SortKey, asc: bool, t: seq<Member>, x: Member): seq<Member> {
    if t == [] then [x]
    else if InOrder(key, asc, t[|t| - 1], x) then t + [x]
    else Insert(key, asc, t[..|t| - 1], x) + [t[|t| - 1]]
  }

  /** Inserting adds `x` and loses nothing. */
  lemma {:induction false} InsertPermutes(key: SortKey, asc: bool, t: seq<Member>, x: Member)
    ensures multiset(Insert(key, asc, t, x)) == multiset(t) + multiset{x}
  {
    if t != [] && !InOrder(key, asc, t[|t| - 1], x) {
      var front, last := t[..|t| - 1], t[|t| - 1];
      InsertPermutes(key, asc, front, x);
      assert Insert(key, asc, t, x) == Insert(key, asc, front, x) + [last];
      assert t == front + [last];
    }
  }

  /** `[...filteredMembers].sort(cmp)` as a stable insertion sort. */
  function SortMembers(key: SortKey, asc: bool, s: seq<Member>): seq<Member> {
    if s == [] then []
    else Insert(key, asc, SortMembers(key, asc, s[..|s| - 1]), s[|s| - 1])
  }

  /** Every element of `Insert(t, x)` is `x` or an element of `t`. */
  lemma {:induction false} InsertMembers(key: SortKey, asc: bool, t: seq<Member>, x: Member)
    ensures forall i :: 0 <= i < |Insert(key, asc, t, x)| ==> Insert(key, asc, t, x)[i] == x || Insert(key, asc, t, x)[i] in t
  {
    if t != [] && !InOrder(key, asc, t[|t| - 1], x) {
      var front := t[..|t| - 1];
      InsertMembers(key, asc, front, x);
      var r := Insert(key, asc, front, x);
      forall i | 0 <= i < |r| ensures r[i] == x || r[i] in t {
        if r[i] != x {
          var j :| 0 <= j < |front| && front[j] == r[i];
          assert t[j] == r[i];
        }
      }
    }
  }

  lemma {:induction false} InsertSorted(key: SortKey, asc: bool, t: seq<Member>, x: Member)
    requires Sorted(key, asc, t)
    ensures Sorted(key, asc, Insert(key, asc, t, x))
  {
    if t != [] {
      var front, last := t[..|t| - 1], t[|t| - 1];
      if InOrder(key, asc, last, x) {
        assert Insert(key, asc, t, x) == t + [x];
        forall i | 0 <= i < |t| ensures InOrder(key, asc, t[i], x) {
          if i < |t| - 1 {
            InOrderTransitive(key, asc, t[i], last, x);
          }
        }
        SortedSnoc(key, asc, t, x);
      } else {
        assert Sorted(key, asc, front);
        InsertSorted(key, asc, front, x);
        InsertMembers(key, asc, front, x);
        var r := Insert(key, asc, front, x);
        assert Insert(key, asc, t, x) == r + [last];
        InOrderTotal(key, asc, last, x);
        forall i | 0 <= i < |r| ensures InOrder(key, asc, r[i], last) {
          if r[i] != x {
            var j :| 0 <= j < |front| && front[j] == r[i];
            assert t[j] == r[i];
          }
        }
        SortedSnoc(key, asc, r, last);
      }
    }
  }

  /** Appending an element every element may stand before keeps a sequence sorted. */
  lemma SortedSnoc(key: SortKey, asc: bool, s: seq<Member>, y: Member)
    requires Sorted(key, asc, s)
    requires forall i :: 0 <= i < |s| ==> InOrder(key, asc, s[i], y)
    ensures Sorted(key, asc, s + [y])
  {
    var s' := s + [y];
    forall i, j | 0 <= i < j < |s'| ensures InOrder(key, asc, s'[i], s'[j]) {
      assert s'[i] == s[i];
      if j < |s| { assert s'[j] == s[j]; }
    }
  }

  lemma {:induction false} SortMembersPermutes(key: SortKey, asc: bool, s: seq<Member>)
    ensures multiset(SortMembers(key, asc, s)) == multiset(s)
  {
    if s != [] {
      var front, last := s[..|s| - 1], s[|s| - 1];
      SortMembersPermutes(key, asc, front);
      InsertPermutes(key, asc, SortMembers(key, asc, front), last);
      assert SortMembers(key, asc, s) == Insert(key, asc, SortMembers(key, asc, front), last);
      assert multiset(s) == multiset(front) + multiset{last} by {
        assert s == front + [last];
      }
    }
  }

  lemma {:induction false} SortMembersSorted(key: SortKey, asc: bool, s: seq<Member>)
    ensures Sorted(key, asc, SortMembers(key, asc, s))
  {
    if s != [] {
      var front, last := s[..|s| - 1], s[|s| - 1];
      SortMembersSorted(key, asc, front);
      InsertSorted(key, asc, SortMembers(key, asc, front), last);
      assert SortMembers(key, asc, s) == Insert(key, asc, SortMembers(key, asc, front), last);
    }
  }

  /** The sorted table is a permutation of the filtered one, in comparator order. */
  lemma SortMembersSpec(key: SortKey, asc: bool, s: seq<Member>)
    ensures multiset(SortMembers(key, asc, s)) == multiset(s)
    ensures Sorted(key, asc, SortMembers(key, asc, s))
  {
    SortMembersPermutes(key, asc, s);
    SortMembersSorted(key, asc, s);
  }

  /** The whole table: filter, then sort. */
  function MemberTable(members: seq<Member>, selectedCondition: string, search: string,
                       key: SortKey, asc: bool): seq<Member>
  {
    SortMembers(key, asc, FilterMembers(members, selectedCondition, search))
  }

  /** The table lists exactly the members that pass the filters, each as often
      as it occurs in `members`, in comparator order. */
  lemma MemberTableSpec(members: seq<Member>, selectedCondition: string, search: string,
                        key: SortKey, asc: bool)
    ensures multiset(MemberTable(members, selectedCondition, search, key, asc)) ==
            multiset(FilterMembers(members, selectedCondition, search))
    ensures multiset(MemberTable(members, selectedCondition, search, key, asc)) <= multiset(members)
    ensures forall m :: multiset(MemberTable(members, selectedCondition, search, key, asc))[m] ==
              if PassesTableFilters(m, selectedCondition, search) then multiset(members)[m] else 0
    ensures Sorted(key, asc, MemberTable(members, selectedCondition, search, key, asc))
  {
    SortMembersSpec(key, asc, FilterMembers(members, selectedCondition, search));
    FilterMembersSpec(members, selectedCondition, search);
    forall m ensures multiset(MemberTable(members, selectedCondition, search, key, asc))[m] ==
                     if PassesTableFilters(m, selectedCondition, search) then multiset(members)[m] else 0 {
      FilterMembersCount(members, selectedCondition, search, m);
    }
  }

  // ---------------------------------------------------------------------------
  // CSV rows
  // ---------------------------------------------------------------------------

  /** A CSV cell: the generation is written as a number, everything else as text. */
  datatype Cell = Text(text: string) | Number(value: int)

  /** `["Name", "Generation", "Blood Type", ...conditions]`. */
  function Header(conditions: seq<string>): (h: seq<Cell>)
    ensures |h| == 3 + |conditions|
    ensures forall i :: 0 <= i < |conditions| ==> h[3 + i] == Text(conditions[i])
  {
    [Text("Name"), Text("Generation"), Text("Blood Type")] + seq(|conditions|, i requires 0 <= i < |conditions| => Text(conditions[i]))
  }

  /** `m.medicalConditions.includes(cond) ? "Yes" : ""`. */
  function ConditionCell(m: Member, c: string): Cell {
    Text(if HasCondition(m, c) then "Yes" else "")
  }

  /** One data row of the export, lines 42-49. */
  function Row(m: Member, conditions: seq<string>): (r: seq<Cell>)
    ensures |r| == 3 + |conditions|
  {
    [Text(Trim(FullName(m))), Number(m.generation), Text(m.bloodType.GetOr(""))]
    + seq(|conditions|, i requires 0 <= i < |conditions| => ConditionCell(m, conditions[i]))
  }

  /** The header followed by one row per member, in order. */
  function ExportRows(members: seq<Member>, conditions: seq<string>): (rows: seq<seq<Cell>>)
    ensures |rows| == 1 + |members|
  {
    [Header(conditions)] + seq(|members|, i requires 0 <= i < |members| => Row(members[i], conditions))
  }

  /** Every row is as wide as the header; under the header cell of condition
      `c` a member's row says "Yes" exactly when the member has `c` and is
      empty otherwise; the first three cells are the trimmed full name, the
      generation and the blood type (empty when unknown). */
  lemma ExportRowsSpec(members: seq<Member>, conditions: seq<string>, k: nat, col: nat)
    requires k < |members| && col < 3 + |conditions|
    ensures |ExportRows(members, conditions)[1 + k]| == |ExportRows(members, conditions)[0]|
    ensures col >= 3 ==> (ExportRows(members, conditions)[0][col].Text? &&
              (ExportRows(members, conditions)[1 + k][col] == Text("Yes") <==>
                 HasCondition(members[k], ExportRows(members, conditions)[0][col].text)))
    ensures col >= 3 ==> (ExportRows(members, conditions)[1 + k][col] == Text("") <==>
               !HasCondition(members[k], ExportRows(members, conditions)[0][col].text))
    ensures ExportRows(members, conditions)[0][..3] == [Text("Name"), Text("Generation"), Text("Blood Type")]
    ensures ExportRows(members, conditions)[1 + k][..3] ==
            [Text(Trim(FullName(members[k]))), Number(members[k].generation),
             Text(if Truthy(members[k].bloodType) then members[k].bloodType.value else "")]
  {
    var rows := ExportRows(members, conditions);
    assert rows[1 + k] == Row(members[k], conditions);
    assert rows[0] == Header(conditions);
    RowCells(members[k], conditions, col);
  }

  lemma RowCells(m: Member, conditions: seq<string>, col: nat)
    requires col < 3 + |conditions|
    ensures col >= 3 ==> Row(m, conditions)[col] == ConditionCell(m, conditions[col - 3])
    ensures col >= 3 ==> Header(conditions)[col] == Text(conditions[col - 3])
    ensures Header(conditions)[..3] == [Text("Name"), Text("Generation"), Text("Blood Type")]
    ensures Row(m, conditions)[..3] == [Text(Trim(FullName(m))), Number(m.generation), Text(m.bloodType.GetOr(""))]
  {
  }
}
